/** What applications are worth, operator by operator, without any sort inference: Booleans, integers, bit-vectors as
    lists of bits, arrays and functions as finite tables with a default. An application that is not meaningful has no
    value. check_sortedness and compute_sort of src/sort_inference.cpp are proved against this. */
module Values {
  import opened Terms
  import opened Sorts
  import opened Aliases
  import B = BVSmods

  datatype Value =
    | Bool(b: bool)
    | Number(i: int)
    | Bits(bits: seq<bool>)
    | Table(index: Sort, elem: Sort, default: Value, entries: map<Value, Value>)
    | Graph(domain: seq<Sort>, codomain: Sort, default: Value, rows: map<Row, Value>)
    | Element(name: string, k: nat)

  datatype Row = Row(values: seq<Value>)

  function SortOfValue(v: Value): Sort {
    match v
    case Bool(_) => BoolSort
    case Number(_) => IntSort
    case Bits(bs) => BVSort(|bs|)
    case Table(i, e, _, _) => ArraySort(i, e)
    case Graph(ds, c, _, _) => FunctionSort(ds, c)
    case Element(n, _) => UninterpretedSort(n)
  }

  function SortsOfValues(vs: seq<Value>): (ss: seq<Sort>)
    ensures |ss| == |vs| && forall i :: 0 <= i < |vs| ==> ss[i] == SortOfValue(vs[i])
  {
    seq(|vs|, i requires 0 <= i < |vs| => SortOfValue(vs[i]))
  }

  /** Tables hold values of the sorts that they say. */
  ghost predicate Proper(v: Value)
    decreases v
  {
    match v
    case Table(i, e, d, m) =>
      && Proper(d) && SortOfValue(d) == e
      && forall k :: k in m ==> Proper(k) && SortOfValue(k) == i && Proper(m[k]) && SortOfValue(m[k]) == e
    case Graph(ds, c, d, m) =>
      && Proper(d) && SortOfValue(d) == c
      && forall r :: r in m ==> SortsOfValues(r.values) == ds && Proper(m[r]) && SortOfValue(m[r]) == c
    case _ => true
  }

  ghost predicate HasSort(v: Value, s: Sort) {
    Proper(v) && SortOfValue(v) == s
  }

  ghost predicate AllProper(vs: seq<Value>) {
    forall i :: 0 <= i < |vs| ==> Proper(vs[i])
  }

  /** Some value of a sort. */
  function Default(s: Sort): (v: Value)
    ensures HasSort(v, s)
  {
    match s
    case BoolSort => Bool(false)
    case IntSort => Number(0)
    case BVSort(w) => Bits(Copies(w, false))
    case ArraySort(i, e) => Table(i, e, Default(e), map[])
    case FunctionSort(ds, c) => Graph(ds, c, Default(c), map[])
    case UninterpretedSort(n) => Element(n, 0)
  }

  // ----- bits, the most significant one first -----

  function Copies(n: nat, b: bool): (bs: seq<bool>)
    ensures |bs| == n && forall i :: 0 <= i < n ==> bs[i] == b
  {
    seq(n, _ => b)
  }

  function ToNat(bs: seq<bool>): nat {
    if bs == [] then 0 else 2 * ToNat(bs[..|bs| - 1]) + if bs[|bs| - 1] then 1 else 0
  }

  /** The low w bits of a number, in two's complement. */
  function OfInt(w: nat, n: int): (bs: seq<bool>)
    ensures |bs| == w
  {
    if w == 0 then [] else OfInt(w - 1, n / 2) + [n % 2 == 1]
  }

  function Sign(bs: seq<bool>): bool {
    bs != [] && bs[0]
  }

  function ToInt(bs: seq<bool>): int {
    ToNat(bs) - if Sign(bs) then B.Pow2(|bs|) else 0
  }

  lemma {:induction false} ToNatBound(bs: seq<bool>)
    ensures ToNat(bs) < B.Pow2(|bs|)
  {
    if bs != [] {
      ToNatBound(bs[..|bs| - 1]);
    }
  }

  lemma TwiceProduct(x: int, m: int)
    ensures 2 * (x * m) == x * (2 * m)
  {
  }

  /** The bits of a number are worth the number that differs from it by a multiple of the power of two. */
  lemma {:induction false} ToNatOfInt(w: nat, n: int) returns (k: int)
    ensures n == k * B.Pow2(w) + ToNat(OfInt(w, n)) && ToNat(OfInt(w, n)) < B.Pow2(w)
  {
    ToNatBound(OfInt(w, n));
    if w == 0 {
      k := n;
    } else {
      k := ToNatOfInt(w - 1, n / 2);
      TwiceProduct(k, B.Pow2(w - 1));
      var bs := OfInt(w, n);
      assert bs[..w - 1] == OfInt(w - 1, n / 2) && bs[w - 1] == (n % 2 == 1);
      assert ToNat(bs) == 2 * ToNat(OfInt(w - 1, n / 2)) + n % 2;
    }
  }

  /** Bits joined are numbers joined. */
  lemma {:induction false} ToNatJoined(a: seq<bool>, b: seq<bool>)
    ensures ToNat(a + b) == ToNat(a) * B.Pow2(|b|) + ToNat(b)
    decreases |b|
  {
    if b == [] {
      assert a + b == a;
      assert B.Pow2(|b|) == 1;
    } else {
      var n := |b| - 1;
      var whole := a + b;
      assert whole[..|a| + n] == a + b[..n] && whole[|a| + n] == b[n] && |whole| - 1 == |a| + n;
      ToNatJoined(a, b[..n]);
      TwiceProduct(ToNat(a), B.Pow2(n));
      assert ToNat(whole) == 2 * ToNat(a + b[..n]) + if b[n] then 1 else 0;
      assert B.Pow2(|b|) == 2 * B.Pow2(n);
    }
  }

  function Pairwise(f: (bool, bool) -> bool, a: seq<bool>, b: seq<bool>): (r: seq<bool>)
    requires |a| == |b|
    ensures |r| == |a| && forall i :: 0 <= i < |a| ==> r[i] == f(a[i], b[i])
  {
    seq(|a|, i requires 0 <= i < |a| => f(a[i], b[i]))
  }

  function Inverted(a: seq<bool>): (r: seq<bool>)
    ensures |r| == |a| && forall i :: 0 <= i < |a| ==> r[i] != a[i]
  {
    seq(|a|, i requires 0 <= i < |a| => !a[i])
  }

  function Repeated(k: nat, a: seq<bool>): (r: seq<bool>)
    ensures |r| == k * |a|
  {
    if k == 0 then [] else Repeated(k - 1, a) + a
  }

  function Remainder(a: nat, b: nat): (r: nat)
    requires b > 0
    ensures r < b
  {
    a % b
  }

  /** The first k bits come last; k is counted around. */
  function RotatedLeft(k: nat, a: seq<bool>): (r: seq<bool>)
    ensures |r| == |a|
  {
    if a == [] then a
    else
      var n := Remainder(k, |a|);
      a[n..] + a[..n]
  }

  /** The last k bits come first. */
  function RotatedRight(k: nat, a: seq<bool>): (r: seq<bool>)
    ensures |r| == |a|
  {
    if a == [] then a
    else
      var n := |a| - Remainder(k, |a|);
      a[n..] + a[..n]
  }

  /** Division by zero gives the greatest number; the remainder is then the dividend. */
  function Udiv(w: nat, a: nat, b: nat): int {
    if b == 0 then B.Pow2(w) - 1 else a / b
  }

  function Sdiv(w: nat, a: int, b: int): int {
    var q := Udiv(w, B.Magnitude(a), B.Magnitude(b));
    if (a < 0) == (b < 0) then q else -q
  }

  /** The remainder has the sign of the dividend. */
  function Srem(a: int, b: int): int {
    var r := B.Urem(B.Magnitude(a), B.Magnitude(b));
    if a < 0 then 0 - r else r
  }

  /** The remainder has the sign of the divisor. */
  function Smod(a: int, b: int): int {
    if b == 0 then a else B.BySigns(a, b, B.Urem(B.Magnitude(a), B.Magnitude(b)))
  }

  // ----- the operators -----

  function Connective(p: PrimOp, a: bool, b: bool): Option<bool> {
    match p
    case And => Some(a && b)
    case Or => Some(a || b)
    case Xor => Some(a != b)
    case Implies => Some(a ==> b)
    case _ => None
  }

  function Arithmetic(p: PrimOp, a: int, b: int): Option<Value> {
    match p
    case Plus => Some(Number(a + b))
    case Minus => Some(Number(a - b))
    case Mult => Some(Number(a * b))
    case Lt => Some(Bool(a < b))
    case Le => Some(Bool(a <= b))
    case Gt => Some(Bool(a > b))
    case Ge => Some(Bool(a >= b))
    case _ => None
  }

  function Bitwise(p: PrimOp, a: seq<bool>, b: seq<bool>): Option<Value>
    requires |a| == |b|
  {
    match p
    case BVAnd => Some(Bits(Pairwise((x, y) => x && y, a, b)))
    case BVOr => Some(Bits(Pairwise((x, y) => x || y, a, b)))
    case BVXor => Some(Bits(Pairwise((x, y) => x != y, a, b)))
    case BVNand => Some(Bits(Pairwise((x, y) => !(x && y), a, b)))
    case BVNor => Some(Bits(Pairwise((x, y) => !(x || y), a, b)))
    case BVXnor => Some(Bits(Pairwise((x, y) => x == y, a, b)))
    case BVComp => Some(Bits([a == b]))
    case _ => None
  }

  function Modular(p: PrimOp, a: seq<bool>, b: seq<bool>): Option<Value>
    requires |a| == |b|
  {
    var w := |a|;
    match p
    case BVAdd => Some(Bits(OfInt(w, ToNat(a) + ToNat(b))))
    case BVSub => Some(Bits(OfInt(w, ToNat(a) - ToNat(b))))
    case BVMul => Some(Bits(OfInt(w, ToNat(a) * ToNat(b))))
    case BVUdiv => Some(Bits(OfInt(w, Udiv(w, ToNat(a), ToNat(b)))))
    case BVUrem => Some(Bits(OfInt(w, B.Urem(ToNat(a), ToNat(b)))))
    case BVSdiv => Some(Bits(OfInt(w, Sdiv(w, ToInt(a), ToInt(b)))))
    case BVSrem => Some(Bits(OfInt(w, Srem(ToInt(a), ToInt(b)))))
    case BVSmod => Some(Bits(OfInt(w, Smod(ToInt(a), ToInt(b)))))
    case BVShl => Some(Bits(OfInt(w, ToNat(a) * B.Pow2(ToNat(b)))))
    case BVLshr => Some(Bits(OfInt(w, ToNat(a) / B.Pow2(ToNat(b)))))
    case BVAshr => Some(Bits(OfInt(w, ToInt(a) / B.Pow2(ToNat(b)))))
    case _ => None
  }

  function Compared(p: PrimOp, a: seq<bool>, b: seq<bool>): Option<Value> {
    match p
    case BVUlt => Some(Bool(ToNat(a) < ToNat(b)))
    case BVUle => Some(Bool(ToNat(a) <= ToNat(b)))
    case BVUgt => Some(Bool(ToNat(a) > ToNat(b)))
    case BVUge => Some(Bool(ToNat(a) >= ToNat(b)))
    case BVSlt => Some(Bool(ToInt(a) < ToInt(b)))
    case BVSle => Some(Bool(ToInt(a) <= ToInt(b)))
    case BVSgt => Some(Bool(ToInt(a) > ToInt(b)))
    case BVSge => Some(Bool(ToInt(a) >= ToInt(b)))
    case _ => None
  }

  function OfBits(p: PrimOp, a: seq<bool>, b: seq<bool>): Option<Value> {
    if p == Concat then Some(Bits(a + b))
    else if |a| != |b| then None
    else if Bitwise(p, a, b).Some? then Bitwise(p, a, b)
    else if Modular(p, a, b).Some? then Modular(p, a, b)
    else Compared(p, a, b)
  }

  /** An extraction takes the bits from the second index up to the first, counted from the least significant one. */
  function Extracted(hi: nat, lo: nat, a: seq<bool>): Option<Value> {
    if lo <= hi < |a| then Some(Bits(a[|a| - 1 - hi..|a| - lo])) else None
  }

  function OfOne(op: Op, v: Value): Option<Value> {
    match op.prim
    case Not => if v.Bool? then Some(Bool(!v.b)) else None
    case Negate => if v.Number? then Some(Number(-v.i)) else None
    case BVNot => if v.Bits? then Some(Bits(Inverted(v.bits))) else None
    case BVNeg => if v.Bits? then Some(Bits(OfInt(|v.bits|, 0 - ToNat(v.bits)))) else None
    case Extract => if v.Bits? then Extracted(Idx(op, 0), Idx(op, 1), v.bits) else None
    case ZeroExtend => if v.Bits? then Some(Bits(Copies(Idx(op, 0), false) + v.bits)) else None
    case SignExtend => if v.Bits? then Some(Bits(Copies(Idx(op, 0), Sign(v.bits)) + v.bits)) else None
    case Repeat => if v.Bits? then Some(Bits(Repeated(Idx(op, 0), v.bits))) else None
    case RotateLeft => if v.Bits? then Some(Bits(RotatedLeft(Idx(op, 0), v.bits))) else None
    case RotateRight => if v.Bits? then Some(Bits(RotatedRight(Idx(op, 0), v.bits))) else None
    case _ => None
  }

  function Chosen(v: Value, i: Value): Option<Value> {
    if v.Table? && SortOfValue(i) == v.index then Some(if i in v.entries then v.entries[i] else v.default) else None
  }

  /** Only what differs from the default is kept as an entry. */
  function Stored(v: Value, i: Value, e: Value): Option<Value> {
    if v.Table? && SortOfValue(i) == v.index && SortOfValue(e) == v.elem then
      Some(v.(entries := if e == v.default then v.entries - {i} else v.entries[i := e]))
    else None
  }

  function OfTwo(p: PrimOp, v: Value, u: Value): Option<Value> {
    if p == Equal || p == Distinct then
      if SortOfValue(v) == SortOfValue(u) then Some(Bool((v == u) == (p == Equal))) else None
    else if p == Select then Chosen(v, u)
    else match (v, u)
      case (Bool(a), Bool(b)) => if Connective(p, a, b).Some? then Some(Bool(Connective(p, a, b).value)) else None
      case (Number(a), Number(b)) => Arithmetic(p, a, b)
      case (Bits(a), Bits(b)) => OfBits(p, a, b)
      case _ => None
  }

  function OfThree(p: PrimOp, v: Value, u: Value, w: Value): Option<Value> {
    if p == Store then Stored(v, u, w)
    else if p == Ite && v.Bool? && SortOfValue(u) == SortOfValue(w) then Some(if v.b then u else w)
    else None
  }

  function Called(f: Value, args: seq<Value>): Option<Value> {
    if f.Graph? && SortsOfValues(args) == f.domain then
      Some(if Row(args) in f.rows then f.rows[Row(args)] else f.default)
    else None
  }

  /** The value of an application, if it has one. */
  function Result(op: Op, vs: seq<Value>): Option<Value> {
    if op.prim == Apply then if |vs| >= 2 then Called(vs[0], vs[1..]) else None
    else if |vs| == 1 then OfOne(op, vs[0])
    else if |vs| == 2 then OfTwo(op.prim, vs[0], vs[1])
    else if |vs| == 3 then OfThree(op.prim, vs[0], vs[1], vs[2])
    else None
  }

  // ----- sort checking is having a value -----

  /** An extraction stays within its argument, which check_sortedness does not look at. */
  predicate WithinWidth(op: Op, ss: seq<Sort>) {
    op.prim == Extract ==> |ss| == 1 && Idx(op, 1) <= Idx(op, 0) < Width(ss[0])
  }

  /** Widths of 64 bits. */
  predicate Narrow(s: Sort) {
    Width(s) < 0x1_0000_0000_0000_0000
  }

  /** A result is there exactly when the sorts are accepted, and has the inferred sort. */
  ghost predicate SortedAs(op: Op, ss: seq<Sort>, r: Option<Value>) {
    && (r.Some? <==> CheckSorted(op, ss) && WithinWidth(op, ss))
    && (r.Some? && Narrow(ss[0]) ==> HasSort(r.value, ComputeSort(op, ss)))
  }

  lemma SingleMember(s: Sort)
    ensures AllBool([s]) <==> s == BoolSort
    ensures AllInt([s]) <==> s == IntSort
    ensures AllBV([s]) <==> s.BVSort?
  {
    assert [s][0] == s && s in [s];
  }

  /** Operators on the bits of one vector. */
  predicate ResizesBits(p: PrimOp) {
    p == Extract || p == ZeroExtend || p == SignExtend || p == Repeat
  }

  lemma ResizedSorted(op: Op, a: seq<bool>)
    requires ResizesBits(op.prim)
    ensures SortedAs(op, [BVSort(|a|)], OfOne(op, Bits(a)))
  {
    SingleMember(BVSort(|a|));
  }

  lemma NotResizedSorted(op: Op, v: Value)
    requires ResizesBits(op.prim) && !v.Bits?
    ensures SortedAs(op, [SortOfValue(v)], OfOne(op, v))
  {
    SingleMember(SortOfValue(v));
  }

  lemma UnarySorted(op: Op, v: Value)
    requires op.prim == Not || op.prim == Negate || op.prim == BVNot || op.prim == BVNeg ||
      op.prim == RotateLeft || op.prim == RotateRight
    ensures SortedAs(op, [SortOfValue(v)], OfOne(op, v))
  {
    SingleMember(SortOfValue(v));
  }

  lemma OneSorted(op: Op, v: Value)
    requires op.prim != Apply
    ensures SortedAs(op, [SortOfValue(v)], OfOne(op, v))
  {
    match op.prim
    case Extract | ZeroExtend | SignExtend | Repeat =>
      if v.Bits? {
        ResizedSorted(op, v.bits);
      } else {
        NotResizedSorted(op, v);
      }
    case Not | Negate | BVNot | BVNeg | RotateLeft | RotateRight => UnarySorted(op, v);
    case _ =>
  }

  predicate ForAnySort(p: PrimOp) {
    p == Equal || p == Distinct || p == Select || p == Apply
  }

  lemma PairMembers(s: Sort, t: Sort)
    ensures s in [s, t] && t in [s, t]
    ensures AllBool([s, t]) <==> s == BoolSort && t == BoolSort
    ensures AllInt([s, t]) <==> s == IntSort && t == IntSort
    ensures AllBV([s, t]) <==> s.BVSort? && t.BVSort?
    ensures AllEqual([s, t]) <==> s == t
  {
    assert [s, t][0] == s && [s, t][1] == t;
  }

  lemma JoinedSorted(op: Op, a: seq<bool>, b: seq<bool>)
    requires op.prim == Concat
    ensures SortedAs(op, [BVSort(|a|), BVSort(|b|)], OfBits(op.prim, a, b))
  {
    PairMembers(BVSort(|a|), BVSort(|b|));
  }

  predicate IsScalar(s: Sort) {
    s.BoolSort? || s.IntSort? || s.BVSort?
  }

  /** All other operators with two arguments take scalars of one sort. */
  lemma ScalarPair(op: Op, s: Sort, t: Sort)
    requires CheckSorted(op, [s, t]) && op.prim != Concat && !ForAnySort(op.prim)
    ensures s == t && IsScalar(s)
  {
    PairMembers(s, t);
  }

  lemma UnevenSorted(op: Op, a: seq<bool>, b: seq<bool>)
    requires op.prim != Concat && |a| != |b| && !ForAnySort(op.prim)
    ensures SortedAs(op, [BVSort(|a|), BVSort(|b|)], OfBits(op.prim, a, b))
  {
    if CheckSorted(op, [BVSort(|a|), BVSort(|b|)]) {
      ScalarPair(op, BVSort(|a|), BVSort(|b|));
    }
  }

  lemma BitwiseSorted(op: Op, a: seq<bool>, b: seq<bool>)
    requires |a| == |b| && Bitwise(op.prim, a, b).Some?
    ensures SortedAs(op, [BVSort(|a|), BVSort(|b|)], OfBits(op.prim, a, b))
  {
    PairMembers(BVSort(|a|), BVSort(|b|));
  }

  lemma ModularSorted(op: Op, a: seq<bool>, b: seq<bool>)
    requires |a| == |b| && Modular(op.prim, a, b).Some?
    ensures SortedAs(op, [BVSort(|a|), BVSort(|b|)], OfBits(op.prim, a, b))
  {
    PairMembers(BVSort(|a|), BVSort(|b|));
  }

  lemma ComparedSorted(op: Op, a: seq<bool>, b: seq<bool>)
    requires |a| == |b| && Compared(op.prim, a, b).Some?
    ensures SortedAs(op, [BVSort(|a|), BVSort(|b|)], OfBits(op.prim, a, b))
  {
    PairMembers(BVSort(|a|), BVSort(|b|));
  }

  lemma OtherBitsSorted(op: Op, a: seq<bool>, b: seq<bool>)
    requires |a| == |b| && op.prim != Concat && !ForAnySort(op.prim)
    requires Bitwise(op.prim, a, b).None? && Modular(op.prim, a, b).None? && Compared(op.prim, a, b).None?
    ensures SortedAs(op, [BVSort(|a|), BVSort(|b|)], OfBits(op.prim, a, b))
  {
    if CheckSorted(op, [BVSort(|a|), BVSort(|b|)]) {
      VectorPair(op, BVSort(|a|), BVSort(|b|));
      VectorResult(op.prim, a, b);
    }
  }

  predicate OnVectors(p: PrimOp) {
    match p
    case BVAnd | BVOr | BVXor | BVNand | BVNor | BVXnor | BVComp => true
    case BVAdd | BVSub | BVMul | BVUdiv | BVSdiv | BVUrem | BVSrem | BVSmod | BVShl | BVAshr | BVLshr => true
    case BVUlt | BVUle | BVUgt | BVUge | BVSlt | BVSle | BVSgt | BVSge => true
    case _ => false
  }

  lemma VectorPair(op: Op, s: Sort, t: Sort)
    requires CheckSorted(op, [s, t]) && op.prim != Concat && !ForAnySort(op.prim) && s.BVSort?
    ensures OnVectors(op.prim)
  {
    PairMembers(s, t);
  }

  lemma VectorResult(p: PrimOp, a: seq<bool>, b: seq<bool>)
    requires OnVectors(p) && |a| == |b|
    ensures Bitwise(p, a, b).Some? || Modular(p, a, b).Some? || Compared(p, a, b).Some?
  {
  }

  lemma BitsSorted(op: Op, a: seq<bool>, b: seq<bool>)
    requires !ForAnySort(op.prim)
    ensures SortedAs(op, [BVSort(|a|), BVSort(|b|)], OfBits(op.prim, a, b))
  {
    if op.prim == Concat {
      JoinedSorted(op, a, b);
    } else if |a| != |b| {
      UnevenSorted(op, a, b);
    } else if Bitwise(op.prim, a, b).Some? {
      BitwiseSorted(op, a, b);
    } else if Modular(op.prim, a, b).Some? {
      ModularSorted(op, a, b);
    } else if Compared(op.prim, a, b).Some? {
      ComparedSorted(op, a, b);
    } else {
      OtherBitsSorted(op, a, b);
    }
  }

  lemma EqualSorted(op: Op, v: Value, u: Value)
    requires op.prim == Equal || op.prim == Distinct
    ensures SortedAs(op, [SortOfValue(v), SortOfValue(u)], OfTwo(op.prim, v, u))
  {
    PairMembers(SortOfValue(v), SortOfValue(u));
  }

  lemma {:induction false} SelectSorted(op: Op, v: Value, u: Value)
    requires Proper(v) && op.prim == Select
    ensures SortedAs(op, [SortOfValue(v), SortOfValue(u)], OfTwo(op.prim, v, u))
  {
  }

  lemma BoolsSorted(op: Op, a: bool, b: bool)
    requires !ForAnySort(op.prim)
    ensures SortedAs(op, [BoolSort, BoolSort], OfTwo(op.prim, Bool(a), Bool(b)))
  {
    if Connective(op.prim, a, b).Some? {
      ConnectiveSorted(op, a, b);
    } else {
      NoConnective(op, a, b);
    }
  }

  lemma ConnectiveSorted(op: Op, a: bool, b: bool)
    requires Connective(op.prim, a, b).Some?
    ensures CheckSorted(op, [BoolSort, BoolSort]) && ComputeSort(op, [BoolSort, BoolSort]) == BoolSort
    ensures OfTwo(op.prim, Bool(a), Bool(b)).Some? && OfTwo(op.prim, Bool(a), Bool(b)).value.Bool?
  {
    PairMembers(BoolSort, BoolSort);
  }

  lemma NoConnective(op: Op, a: bool, b: bool)
    requires Connective(op.prim, a, b).None? && !ForAnySort(op.prim)
    ensures !CheckSorted(op, [BoolSort, BoolSort]) && OfTwo(op.prim, Bool(a), Bool(b)).None?
  {
    PairMembers(BoolSort, BoolSort);
  }

  lemma NumbersSorted(op: Op, a: int, b: int)
    requires !ForAnySort(op.prim)
    ensures SortedAs(op, [IntSort, IntSort], OfTwo(op.prim, Number(a), Number(b)))
  {
    if Arithmetic(op.prim, a, b).Some? {
      ArithmeticSorted(op, a, b);
    } else {
      NoArithmetic(op, a, b);
    }
  }

  lemma ArithmeticSorted(op: Op, a: int, b: int)
    requires Arithmetic(op.prim, a, b).Some?
    ensures CheckSorted(op, [IntSort, IntSort])
    ensures SortOfValue(Arithmetic(op.prim, a, b).value) == ComputeSort(op, [IntSort, IntSort])
    ensures OfTwo(op.prim, Number(a), Number(b)) == Arithmetic(op.prim, a, b)
  {
    PairMembers(IntSort, IntSort);
  }

  lemma NoArithmetic(op: Op, a: int, b: int)
    requires Arithmetic(op.prim, a, b).None? && !ForAnySort(op.prim)
    ensures !CheckSorted(op, [IntSort, IntSort]) && OfTwo(op.prim, Number(a), Number(b)).None?
  {
    PairMembers(IntSort, IntSort);
  }

  lemma MixedSorted(op: Op, v: Value, u: Value)
    requires !(v.Bits? && u.Bits?) && !(v.Bool? && u.Bool?) && !(v.Number? && u.Number?) && !ForAnySort(op.prim)
    ensures SortedAs(op, [SortOfValue(v), SortOfValue(u)], OfTwo(op.prim, v, u))
  {
    PairMembers(SortOfValue(v), SortOfValue(u));
    if op.prim != Concat && CheckSorted(op, [SortOfValue(v), SortOfValue(u)]) {
      ScalarPair(op, SortOfValue(v), SortOfValue(u));
    }
  }

  lemma {:induction false} TwoSorted(op: Op, v: Value, u: Value)
    requires Proper(v) && op.prim != Apply
    ensures SortedAs(op, [SortOfValue(v), SortOfValue(u)], OfTwo(op.prim, v, u))
  {
    if op.prim == Equal || op.prim == Distinct {
      EqualSorted(op, v, u);
    } else if op.prim == Select {
      SelectSorted(op, v, u);
    } else {
      match (v, u)
      case (Bits(a), Bits(b)) => BitsSorted(op, a, b);
      case (Bool(a), Bool(b)) => BoolsSorted(op, a, b);
      case (Number(a), Number(b)) => NumbersSorted(op, a, b);
      case _ => MixedSorted(op, v, u);
    }
  }

  lemma {:induction false} StoreProper(v: Value, i: Value, e: Value)
    requires Proper(v) && Proper(i) && Proper(e) && Stored(v, i, e).Some?
    ensures HasSort(Stored(v, i, e).value, SortOfValue(v))
  {
  }

  lemma {:induction false} StoreSorted(op: Op, v: Value, i: Value, e: Value)
    requires Proper(v) && Proper(i) && Proper(e) && op.prim == Store
    ensures SortedAs(op, [SortOfValue(v), SortOfValue(i), SortOfValue(e)], Stored(v, i, e))
  {
    if Stored(v, i, e).Some? {
      StoreProper(v, i, e);
    }
  }

  lemma {:induction false} IteSorted(op: Op, v: Value, u: Value, w: Value)
    requires Proper(u) && Proper(w) && op.prim == Ite
    ensures SortedAs(op, [SortOfValue(v), SortOfValue(u), SortOfValue(w)], OfThree(Ite, v, u, w))
  {
  }

  lemma {:induction false} ThreeSorted(op: Op, v: Value, u: Value, w: Value)
    requires Proper(v) && Proper(u) && Proper(w) && op.prim != Apply
    ensures SortedAs(op, [SortOfValue(v), SortOfValue(u), SortOfValue(w)], OfThree(op.prim, v, u, w))
  {
    if op.prim == Store {
      StoreSorted(op, v, u, w);
    } else if op.prim == Ite {
      IteSorted(op, v, u, w);
    }
  }

  lemma CallSorted(op: Op, vs: seq<Value>)
    requires AllProper(vs) && op.prim == Apply && |vs| >= 2
    ensures SortedAs(op, SortsOfValues(vs), Called(vs[0], vs[1..]))
  {
    assert SortsOfValues(vs)[1..] == SortsOfValues(vs[1..]);
  }

  lemma NoneSorted(op: Op, ss: seq<Sort>)
    requires op.prim != Apply && (|ss| == 0 || |ss| > 3)
    ensures SortedAs(op, ss, None)
  {
  }

  lemma SmallSorted(op: Op, vs: seq<Value>)
    requires AllProper(vs) && op.prim != Apply && 0 < |vs| <= 3
    ensures SortedAs(op, SortsOfValues(vs), Result(op, vs))
  {
    var ss := SortsOfValues(vs);
    if |vs| == 1 {
      assert ss == [SortOfValue(vs[0])];
      OneSorted(op, vs[0]);
    } else if |vs| == 2 {
      assert ss == [SortOfValue(vs[0]), SortOfValue(vs[1])];
      TwoSorted(op, vs[0], vs[1]);
    } else {
      assert ss == [SortOfValue(vs[0]), SortOfValue(vs[1]), SortOfValue(vs[2])];
      ThreeSorted(op, vs[0], vs[1], vs[2]);
    }
  }

  /** An application is accepted by check_sortedness exactly when it has a value, except for extractions that reach
      outside of their argument, and the value has the sort of compute_sort. */
  lemma ResultSorted(op: Op, vs: seq<Value>)
    requires AllProper(vs)
    ensures SortedAs(op, SortsOfValues(vs), Result(op, vs))
  {
    if op.prim == Apply {
      if |vs| >= 2 {
        CallSorted(op, vs);
      }
    } else if 0 < |vs| <= 3 {
      SmallSorted(op, vs);
    } else {
      NoneSorted(op, SortsOfValues(vs));
    }
  }

  // ----- terms -----

  /** What symbols and parameters are worth. */
  type Assignment = Term -> Value

  ghost predicate Fits(asg: Assignment) {
    forall t: Term :: t.Symbol? || t.Param? ==> HasSort(asg(t), t.sort)
  }

  function Worth(asg: Assignment, t: Term): Option<Value> {
    match t
    case BoolValue(b) => Some(Bool(b))
    case BVValue(w, n) => Some(Bits(OfInt(w, n)))
    case ConstArray(e, s) =>
      var v := Worth(asg, e);
      if v.Some? && s.ArraySort? && SortOfValue(v.value) == s.elem then Some(Table(s.index, s.elem, v.value, map[]))
      else None
    case App(op, cs) => WorthOfApp(op, seq(|cs|, i requires 0 <= i < |cs| => Worth(asg, cs[i])))
    case _ => Some(asg(t))
  }

  function WorthOfApp(op: Op, vs: seq<Option<Value>>): Option<Value> {
    if None in vs then None
    else Result(op, seq(|vs|, i requires 0 <= i < |vs| => vs[i].GetOr(Bool(false))))
  }

  /** No extraction reaches outside of its argument. */
  predicate WithinWidths(t: Term) {
    match t
    case App(op, cs) =>
      && (forall c :: c in cs ==> WithinWidths(c))
      && (|cs| == 1 && SortOf(cs[0]).Some? ==> WithinWidth(op, [SortOf(cs[0]).value]))
    case ConstArray(e, _) => WithinWidths(e)
    case _ => true
  }

  /** Widths are numbers of 64 bits. */
  predicate NarrowTerm(t: Term) {
    && (SortOf(t).Some? ==> Narrow(SortOf(t).value))
    && match t
       case App(_, cs) => forall c :: c in cs ==> NarrowTerm(c)
       case ConstArray(e, _) => NarrowTerm(e)
       case _ => true
  }

  ghost predicate WorthAll(asg: Assignment, ts: seq<Term>, vs: seq<Value>) {
    |vs| == |ts| && forall i :: 0 <= i < |ts| ==> Worth(asg, ts[i]) == Some(vs[i])
  }

  lemma {:induction false} WorthOfNode(asg: Assignment, op: Op, ts: seq<Term>, vs: seq<Value>)
    requires WorthAll(asg, ts, vs)
    ensures Worth(asg, App(op, ts)) == Result(op, vs)
  {
    var opts := seq(|ts|, i requires 0 <= i < |ts| => Worth(asg, ts[i]));
    assert forall o :: o in opts ==> o.Some?;
    assert seq(|opts|, i requires 0 <= i < |opts| => opts[i].GetOr(Bool(false))) == vs;
  }

  lemma {:induction false} NodeSorted(asg: Assignment, op: Op, cs: seq<Term>, vs: seq<Value>)
    requires WorthAll(asg, cs, vs) && AllProper(vs) && HaveSorts(cs, SortsOfValues(vs))
    requires forall c :: c in cs ==> WithinWidths(c) && NarrowTerm(c)
    ensures Worth(asg, App(op, cs)).Some? <==> SortOf(App(op, cs)).Some? && WithinWidths(App(op, cs))
    ensures Worth(asg, App(op, cs)).Some? ==> HasSort(Worth(asg, App(op, cs)).value, SortOf(App(op, cs)).value)
  {
    var ss := SortsOfValues(vs);
    WorthOfNode(asg, op, cs, vs);
    SortOfNode(op, cs, ss);
    ResultSorted(op, vs);
    if |cs| == 1 {
      assert ss == [SortOf(cs[0]).value];
    }
    if ss != [] {
      assert cs[0] in cs;
    }
  }

  /** A term has a value exactly when all its nodes are accepted by check_sortedness and no extraction reaches outside
      of its argument, and the value has the inferred sort, whatever the symbols are worth. */
  lemma {:induction false} WorthSorted(asg: Assignment, t: Term)
    requires Fits(asg) && NarrowTerm(t)
    ensures Worth(asg, t).Some? <==> SortOf(t).Some? && WithinWidths(t)
    ensures Worth(asg, t).Some? ==> HasSort(Worth(asg, t).value, SortOf(t).value)
  {
    match t
    case App(op, cs) =>
      forall i | 0 <= i < |cs|
        ensures Worth(asg, cs[i]).Some? <==> SortOf(cs[i]).Some? && WithinWidths(cs[i])
        ensures Worth(asg, cs[i]).Some? ==> HasSort(Worth(asg, cs[i]).value, SortOf(cs[i]).value)
      {
        WorthSorted(asg, cs[i]);
      }
      if forall i :: 0 <= i < |cs| ==> Worth(asg, cs[i]).Some? {
        var vs := seq(|cs|, i requires 0 <= i < |cs| => Worth(asg, cs[i]).value);
        NodeSorted(asg, op, cs, vs);
      } else {
        var i :| 0 <= i < |cs| && Worth(asg, cs[i]).None?;
        assert seq(|cs|, j requires 0 <= j < |cs| => Worth(asg, cs[j]))[i] == None;
        assert cs[i] in cs;
        if SortOf(t).Some? {
          var ss := StrictArguments(op, cs);
        }
      }
    case ConstArray(e, s) =>
      WorthSorted(asg, e);
    case _ =>
  }

  lemma ExtractionOf(asg: Assignment, hi: nat, lo: nat, x: Term, w: nat)
    requires Fits(asg) && x.Symbol? && x.sort == BVSort(w)
    ensures SortOf(App(Op(Extract, [hi, lo]), [x])) == Some(BVSort((hi - lo + 1) % 0x1_0000_0000_0000_0000))
    ensures Worth(asg, App(Op(Extract, [hi, lo]), [x])).Some? <==> lo <= hi < w
  {
    SingleMember(BVSort(w));
    SortOfNode(Op(Extract, [hi, lo]), [x], [BVSort(w)]);
    WorthOfNode(asg, Op(Extract, [hi, lo]), [x], [asg(x)]);
  }

  /** check_sortedness accepts an extraction beyond the width, and its width is counted around in 64 bits. */
  lemma ExtractionBeyond(asg: Assignment, n: string)
    requires Fits(asg)
    ensures var t := App(Op(Extract, [7, 0]), [Symbol(n, BVSort(4))]);
      SortOf(t) == Some(BVSort(8)) && Worth(asg, t) == None
    ensures var t := App(Op(Extract, [0, 2]), [Symbol(n, BVSort(4))]);
      SortOf(t) == Some(BVSort(0xFFFF_FFFF_FFFF_FFFF)) && Worth(asg, t) == None
  {
    ExtractionOf(asg, 7, 0, Symbol(n, BVSort(4)), 4);
    ExtractionOf(asg, 0, 2, Symbol(n, BVSort(4)), 4);
  }
}
