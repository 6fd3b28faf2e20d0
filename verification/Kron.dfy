/** The Kronecker product as a broadcast multiply of interleaved axes followed by a reshape. */
module Kron {
  import opened Sequences
  import opened Wrappers
  import opened Arith
  import opened RowMajor

  datatype Error = NotBroadcastable | SizeMismatch

  // ----- the array operations kron is composed of -----

  function Ones(n: int): (s: seq<nat>)
    ensures |s| == if n < 0 then 0 else n
    ensures forall k :: 0 <= k < |s| ==> s[k] == 1
  {
    Repeat(1, n)
  }

  /** array(a, ndmin=n): leading axes of length 1 up to rank n. */
  function AtLeast<T>(a: NdArray<T>, n: nat): (r: NdArray<T>) {
    NdArray(Ones(n - |a.shape|) + a.shape, a.data)
  }

  /** range(lo, hi, step). */
  function AxisRange(lo: nat, hi: int, step: nat): (r: seq<nat>)
    requires step > 0
    decreases hi - lo
  {
    if lo >= hi then [] else [lo] + AxisRange(lo + step, hi, step)
  }

  /** Output axes k, ..., n - 1 of expand_dims: length 1 on the new axes, the next input axis on the others. */
  function ExpandShape(shape: seq<nat>, newAxes: seq<nat>, k: nat, n: nat): (s: seq<nat>)
    requires k <= n
    decreases n - k
  {
    if k == n then []
    else if newAxes != [] && newAxes[0] == k then [1] + ExpandShape(shape, newAxes[1..], k + 1, n)
    else if shape == [] then []
    else [shape[0]] + ExpandShape(shape[1..], newAxes, k + 1, n)
  }

  /** expand_dims: the same elements with axes of length 1 inserted at the given increasing output positions. */
  function ExpandDims<T>(a: NdArray<T>, newAxes: seq<nat>): (r: NdArray<T>) {
    NdArray(ExpandShape(a.shape, newAxes, 0, |a.shape| + |newAxes|), a.data)
  }

  /** The length two axes broadcast to. */
  predicate Compatible(m: nat, n: nat) {
    m == n || m == 1 || n == 1
  }

  function BroadcastAxis(m: nat, n: nat): nat {
    if m == 1 then n else m
  }

  /** Broadcast shape of two shapes, aligned at their last axes. */
  function BroadcastShape(s: seq<nat>, t: seq<nat>): (r: Result<seq<nat>, Error>)
    ensures r.Success? ==> |r.value| == Max(|s|, |t|)
  {
    var n := Max(|s|, |t|);
    var s', t' := Ones(n - |s|) + s, Ones(n - |t|) + t;
    if forall k :: 0 <= k < n ==> Compatible(s'[k], t'[k])
    then Success(seq(n, k requires 0 <= k < n => BroadcastAxis(s'[k], t'[k])))
    else Failure(NotBroadcastable)
  }

  /** Where a broadcast operand of this shape is read for output index idx: at 0 on stretched axes. */
  function Source(shape: seq<nat>, idx: seq<nat>): (r: seq<nat>)
    requires |shape| <= |idx|
    ensures |r| == |shape|
  {
    seq(|shape|, k requires 0 <= k < |shape| =>
      if shape[k] == 1 then 0 else idx[|idx| - |shape| + k])
  }

  lemma SourceInBounds(s: seq<nat>, t: seq<nat>, idx: seq<nat>)
    requires BroadcastShape(s, t).Success? && InBounds(BroadcastShape(s, t).value, idx)
    ensures InBounds(s, Source(s, idx)) && InBounds(t, Source(t, idx))
  {
    var r := BroadcastShape(s, t).value;
    var n := |r|;
    var s', t' := Ones(n - |s|) + s, Ones(n - |t|) + t;
    forall k | 0 <= k < |s|
      ensures Source(s, idx)[k] < s[k]
    {
      assert s[k] == s'[n - |s| + k] && Compatible(s'[n - |s| + k], t'[n - |s| + k]);
    }
    forall k | 0 <= k < |t|
      ensures Source(t, idx)[k] < t[k]
    {
      assert t[k] == t'[n - |t| + k] && Compatible(s'[n - |t| + k], t'[n - |t| + k]);
    }
  }

  function ProductAt(a: NdArray<int>, b: NdArray<int>, idx: seq<nat>): int
    requires a.Valid() && b.Valid()
    requires BroadcastShape(a.shape, b.shape).Success? && InBounds(BroadcastShape(a.shape, b.shape).value, idx)
  {
    SourceInBounds(a.shape, b.shape, idx);
    a.At(Source(a.shape, idx)) * b.At(Source(b.shape, idx))
  }

  /** multiply: the elementwise product of two arrays under broadcasting. */
  function Multiply(a: NdArray<int>, b: NdArray<int>): (r: Result<NdArray<int>, Error>)
    requires a.Valid() && b.Valid()
    ensures r.Success? ==> r.value.Valid()
  {
    var shape := BroadcastShape(a.shape, b.shape);
    if shape.Failure? then Failure(shape.error)
    else Success(NdArray(shape.value, seq(Prod(shape.value), r requires 0 <= r < Prod(shape.value) =>
      ProductAt(a, b, Unravel(shape.value, r)))))
  }

  /** reshape (C order): the same elements in the same row-major order under a new shape. */
  function Reshape<T>(a: NdArray<T>, shape: seq<nat>): (r: Result<NdArray<T>, Error>)
    ensures r.Success? ==> r.value.Valid()
  {
    if |a.data| == Prod(shape) then Success(NdArray(shape, a.data)) else Failure(SizeMismatch)
  }

  function Times(s: seq<nat>, t: seq<nat>): (r: seq<nat>)
    requires |s| == |t|
    ensures |r| == |s| && forall k :: 0 <= k < |s| ==> r[k] == s[k] * t[k]
  {
    seq(|s|, k requires 0 <= k < |s| => s[k] * t[k])
  }

  // ----- padding and interleaving shapes -----

  function Zeros(n: nat): (s: seq<nat>)
    ensures |s| == n
    ensures forall k :: 0 <= k < n ==> s[k] == 0
  {
    Repeat(0, n)
  }

  function Interleave(s: seq<nat>, t: seq<nat>): (r: seq<nat>)
    requires |s| == |t|
    ensures |r| == 2 * |s|
  {
    if s == [] then [] else [s[0]] + ([t[0]] + Interleave(s[1..], t[1..]))
  }

  lemma {:induction false} PadRavel(m: nat, shape: seq<nat>, idx: seq<nat>)
    requires InBounds(shape, idx)
    ensures Prod(Ones(m) + shape) == Prod(shape)
    ensures InBounds(Ones(m) + shape, Zeros(m) + idx)
    ensures Ravel(Ones(m) + shape, Zeros(m) + idx) == Ravel(shape, idx)
  {
    if m == 0 {
      assert Ones(0) + shape == shape && Zeros(0) + idx == idx;
    } else {
      PadRavel(m - 1, shape, idx);
      RepeatFirst(1, m, shape);
      RepeatFirst(0, m, idx);
      RavelCons(1, Ones(m - 1) + shape, 0, Zeros(m - 1) + idx);
    }
  }

  lemma {:induction false} PadProd(m: nat, shape: seq<nat>)
    ensures Prod(Ones(m) + shape) == Prod(shape)
  {
    if m == 0 {
      assert Ones(0) + shape == shape;
    } else {
      PadProd(m - 1, shape);
      assert (Ones(m) + shape)[1..] == Ones(m - 1) + shape;
    }
  }

  lemma AtLeastValid<T>(a: NdArray<T>, n: nat)
    requires a.Valid()
    ensures AtLeast(a, n).Valid() && |AtLeast(a, n).shape| == Max(n, |a.shape|)
  {
    PadProd(|Ones(n - |a.shape|)|, a.shape);
  }

  lemma {:induction false} ExpandNone(shape: seq<nat>, k: nat)
    ensures ExpandShape(shape, [], k, k + |shape|) == shape
  {
    if shape == [] {
    } else {
      ExpandNone(shape[1..], k + 1);
    }
  }

  lemma {:induction false} ExpandFront(shape: seq<nat>, m: nat, k: nat)
    requires k <= m
    ensures |AxisRange(k, m, 1)| == m - k
    ensures ExpandShape(shape, AxisRange(k, m, 1), k, m + |shape|) == Ones(m - k) + shape
    decreases m - k
  {
    if k < m {
      ExpandFront(shape, m, k + 1);
      assert Ones(m - k) + shape == [1] + (Ones(m - k - 1) + shape);
    } else {
      ExpandNone(shape, k);
      assert Ones(0) + shape == shape;
    }
  }

  lemma {:induction false} ExpandOdd(shape: seq<nat>, k: nat)
    ensures |AxisRange(k + 1, k + 2 * |shape|, 2)| == |shape|
    ensures ExpandShape(shape, AxisRange(k + 1, k + 2 * |shape|, 2), k, k + 2 * |shape|) ==
            Interleave(shape, Ones(|shape|))
    decreases |shape|
  {
    if shape == [] {
    } else {
      ExpandOdd(shape[1..], k + 2);
      var n := k + 2 * |shape|;
      var newAxes := AxisRange(k + 1, n, 2);
      assert newAxes == [k + 1] + AxisRange(k + 3, n, 2);
      assert ExpandShape(shape, newAxes, k, n) == [shape[0]] + ExpandShape(shape[1..], newAxes, k + 1, n);
      assert Ones(|shape|)[1..] == Ones(|shape| - 1);
    }
  }

  lemma {:induction false} ExpandEven(shape: seq<nat>, k: nat)
    ensures |AxisRange(k, k + 2 * |shape|, 2)| == |shape|
    ensures ExpandShape(shape, AxisRange(k, k + 2 * |shape|, 2), k, k + 2 * |shape|) ==
            Interleave(Ones(|shape|), shape)
    decreases |shape|
  {
    if shape == [] {
    } else {
      ExpandEven(shape[1..], k + 2);
      var n := k + 2 * |shape|;
      var newAxes := AxisRange(k, n, 2);
      assert newAxes == [k] + AxisRange(k + 2, n, 2);
      var rest := AxisRange(k + 2, n, 2);
      assert ExpandShape(shape, newAxes, k, n) == [1] + ExpandShape(shape, rest, k + 1, n);
      assert rest == [] || rest[0] == k + 2;
      assert ExpandShape(shape, rest, k + 1, n) == [shape[0]] + ExpandShape(shape[1..], rest, k + 2, n);
      assert Ones(|shape|)[1..] == Ones(|shape| - 1);
    }
  }

  // ----- the mixed-radix identity -----

  /** The index of block i, position j inside the block, on every axis. */
  function Combine(i: seq<nat>, bs: seq<nat>, j: seq<nat>): (r: seq<nat>)
    requires |i| == |bs| == |j|
    ensures |r| == |i| && forall k :: 0 <= k < |i| ==> r[k] == i[k] * bs[k] + j[k]
  {
    seq(|i|, k requires 0 <= k < |i| => i[k] * bs[k] + j[k])
  }

  lemma CombineInBounds(as_: seq<nat>, bs: seq<nat>, i: seq<nat>, j: seq<nat>)
    requires |as_| == |bs| && InBounds(as_, i) && InBounds(bs, j)
    ensures InBounds(Times(as_, bs), Combine(i, bs, j))
  {
    forall k | 0 <= k < |bs|
      ensures i[k] * bs[k] + j[k] < as_[k] * bs[k]
    {
      MulLeSuccessor(i[k], as_[k], bs[k]);
    }
  }

  lemma TimesCons(as_: seq<nat>, bs: seq<nat>)
    requires |as_| == |bs| > 0
    ensures Times(as_, bs) == [as_[0] * bs[0]] + Times(as_[1..], bs[1..])
  {
  }

  lemma CombineCons(i: seq<nat>, bs: seq<nat>, j: seq<nat>)
    requires |i| == |bs| == |j| > 0
    ensures Combine(i, bs, j) == [i[0] * bs[0] + j[0]] + Combine(i[1..], bs[1..], j[1..])
  {
  }

  lemma {:induction false} InterleaveProd(as_: seq<nat>, bs: seq<nat>)
    requires |as_| == |bs|
    ensures Prod(Interleave(as_, bs)) == Prod(Times(as_, bs))
  {
    if as_ == [] {
    } else {
      InterleaveProd(as_[1..], bs[1..]);
      TimesCons(as_, bs);
      var rest := Interleave(as_[1..], bs[1..]);
      assert Interleave(as_, bs)[1..] == [bs[0]] + rest;
      assert ([bs[0]] + rest)[1..] == rest;
      MulAssoc(as_[0], bs[0], Prod(rest));
    }
  }

  lemma TwoDigits(a0: nat, b0: nat, i0: nat, j0: nat, head: nat, shape: seq<nat>, idx: seq<nat>)
    requires i0 < a0 && j0 < b0 && InBounds(shape, idx) && head == i0 * b0 + j0
    ensures InBounds([a0] + ([b0] + shape), [i0] + ([j0] + idx))
    ensures Ravel([a0] + ([b0] + shape), [i0] + ([j0] + idx)) == head * Prod(shape) + Ravel(shape, idx)
  {
    RavelCons(b0, shape, j0, idx);
    RavelCons(a0, [b0] + shape, i0, [j0] + idx);
    Distribute(i0 * b0, j0, Prod(shape));
    MulAssoc(i0, b0, Prod(shape));
  }

  /** Interleaved axes in row-major order enumerate the block index of every axis before its inner index. */
  lemma {:induction false} MixedRadix(as_: seq<nat>, bs: seq<nat>, i: seq<nat>, j: seq<nat>)
    requires |as_| == |bs| && InBounds(as_, i) && InBounds(bs, j)
    ensures InBounds(Times(as_, bs), Combine(i, bs, j)) && InBounds(Interleave(as_, bs), Interleave(i, j))
    ensures Ravel(Interleave(as_, bs), Interleave(i, j)) == Ravel(Times(as_, bs), Combine(i, bs, j))
  {
    CombineInBounds(as_, bs, i, j);
    if as_ == [] {
    } else {
      var as', bs', i', j' := as_[1..], bs[1..], i[1..], j[1..];
      MixedRadix(as', bs', i', j');
      InterleaveProd(as', bs');
      var head := Combine(i, bs, j)[0];
      TwoDigits(as_[0], bs[0], i[0], j[0], head, Interleave(as', bs'), Interleave(i', j'));
      RavelCons(Times(as_, bs)[0], Times(as', bs'), head, Combine(i', bs', j'));
      TimesCons(as_, bs);
      CombineCons(i, bs, j);
    }
  }

  /** The function under study, line by line. */
  function Kron(a0: NdArray<int>, b: NdArray<int>): (r: Result<NdArray<int>, Error>)
    requires a0.Valid() && b.Valid()
  {
    var ndb := |b.shape|;
    AtLeastValid(a0, ndb);
    var a := AtLeast(a0, ndb);
    if |a.shape| == 0 || ndb == 0 then Multiply(a, b) else Composed(a, b)
  }

  /** The chain of expansions, the multiply and the reshape; a has at least as many axes as b. */
  function Composed(a: NdArray<int>, b: NdArray<int>): (r: Result<NdArray<int>, Error>)
    requires a.Valid() && b.Valid() && |a.shape| >= |b.shape|
  {
    var ndb, nda := |b.shape|, |a.shape|;
    var nd := Max(ndb, nda);
    var as_ := Ones(ndb - nda) + a.shape;
    var bs := Ones(nda - ndb) + b.shape;
    var a1 := ExpandDims(a, AxisRange(0, ndb - nda, 1));
    var b1 := ExpandDims(b, AxisRange(0, nda - ndb, 1));
    var a2 := ExpandDims(a1, AxisRange(1, 2 * nd, 2));
    var b2 := ExpandDims(b1, AxisRange(0, 2 * nd, 2));
    FirstOperand(a, ndb - nda);
    SecondOperand(b, nd);
    var product := Multiply(a2, b2);
    if product.Failure? then product else Reshape(product.value, Times(as_, bs))
  }

  /** The first operand of the multiply: every axis followed by an axis of length 1. */
  lemma FirstOperand(a: NdArray<int>, m: int)
    requires a.Valid() && m <= 0
    ensures var n := |a.shape|;
            var a2 := ExpandDims(ExpandDims(a, AxisRange(0, m, 1)), AxisRange(1, 2 * n, 2));
            a2.Valid() && a2 == NdArray(Interleave(a.shape, Ones(n)), a.data)
  {
    var n := |a.shape|;
    ExpandNone(a.shape, 0);
    ExpandOdd(a.shape, 0);
    InterleaveProd(a.shape, Ones(n));
    assert Times(a.shape, Ones(n)) == a.shape;
  }

  /** Leading axes of length 1 inserted by expand_dims are the padding of the shape. */
  lemma PadByExpanding(b: NdArray<int>, n: nat)
    requires n >= |b.shape|
    ensures ExpandDims(b, AxisRange(0, n - |b.shape|, 1)) == AtLeast(b, n)
  {
    ExpandFront(b.shape, n - |b.shape|, 0);
  }

  lemma EvenAxes(b: NdArray<int>)
    requires b.Valid()
    ensures var n := |b.shape|;
            var b2 := ExpandDims(b, AxisRange(0, 2 * n, 2));
            b2.Valid() && b2 == NdArray(Interleave(Ones(n), b.shape), b.data)
  {
    var n := |b.shape|;
    ExpandEven(b.shape, 0);
    InterleaveProd(Ones(n), b.shape);
    assert Times(Ones(n), b.shape) == b.shape;
  }

  /** The second operand: padded to rank n, every axis preceded by an axis of length 1. */
  lemma SecondOperand(b: NdArray<int>, n: nat)
    requires b.Valid() && n >= |b.shape|
    ensures var b2 := ExpandDims(ExpandDims(b, AxisRange(0, n - |b.shape|, 1)), AxisRange(0, 2 * n, 2));
            && |AtLeast(b, n).shape| == n
            && b2.Valid() && b2 == NdArray(Interleave(Ones(n), AtLeast(b, n).shape), b.data)
  {
    PadByExpanding(b, n);
    AtLeastValid(b, n);
    EvenAxes(AtLeast(b, n));
  }

  // ----- the direct definition -----

  /** The block index and the inner index of every axis. */
  function Outer(idx: seq<nat>, bs: seq<nat>): (r: seq<nat>)
    requires |idx| == |bs| && forall k :: 0 <= k < |bs| ==> bs[k] > 0
    ensures |r| == |bs| && forall k :: 0 <= k < |bs| ==> r[k] == idx[k] / bs[k]
  {
    seq(|bs|, k requires 0 <= k < |bs| => Quot(idx[k], bs[k]))
  }

  function Quot(x: nat, n: nat): (r: nat)
    requires n > 0
    ensures r == x / n
  {
    DivBound(x, n, 0);
    x / n
  }

  function Inner(idx: seq<nat>, bs: seq<nat>): (r: seq<nat>)
    requires |idx| == |bs| && forall k :: 0 <= k < |bs| ==> bs[k] > 0
    ensures |r| == |bs| && forall k :: 0 <= k < |bs| ==> r[k] == idx[k] % bs[k]
  {
    seq(|bs|, k requires 0 <= k < |bs| => idx[k] % bs[k])
  }

  ghost predicate Divisors(as_: seq<nat>, bs: seq<nat>, idx: seq<nat>)
    requires |as_| == |bs| == |idx|
  {
    && (forall k :: 0 <= k < |bs| ==> bs[k] > 0)
    && InBounds(as_, Outer(idx, bs)) && InBounds(bs, Inner(idx, bs))
    && idx == Combine(Outer(idx, bs), bs, Inner(idx, bs))
  }

  /** Every output index splits into a block index and an inner index. */
  lemma SplitIndex(as_: seq<nat>, bs: seq<nat>, idx: seq<nat>)
    requires |as_| == |bs| && InBounds(Times(as_, bs), idx)
    ensures Divisors(as_, bs, idx)
  {
    forall k | 0 <= k < |bs|
      ensures bs[k] > 0
    {
      assert idx[k] < Times(as_, bs)[k];
      PositiveFactors(idx[k], as_[k], bs[k]);
    }
    forall k | 0 <= k < |bs|
      ensures Outer(idx, bs)[k] < as_[k] && Inner(idx, bs)[k] < bs[k]
      ensures idx[k] == Outer(idx, bs)[k] * bs[k] + Inner(idx, bs)[k]
    {
      assert idx[k] < Times(as_, bs)[k];
      HeadDigit(idx[k], as_[k], bs[k]);
    }
  }

  /** The split is unique. */
  lemma SplitUnique(as_: seq<nat>, bs: seq<nat>, i: seq<nat>, j: seq<nat>)
    requires |as_| == |bs| && InBounds(as_, i) && InBounds(bs, j)
    requires forall k :: 0 <= k < |bs| ==> bs[k] > 0
    ensures Outer(Combine(i, bs, j), bs) == i && Inner(Combine(i, bs, j), bs) == j
  {
    forall k | 0 <= k < |bs|
      ensures Outer(Combine(i, bs, j), bs)[k] == i[k] && Inner(Combine(i, bs, j), bs)[k] == j[k]
    {
      DivModUnique(i[k] * bs[k] + j[k], i[k], j[k], bs[k]);
    }
  }

  function SameRankAt(a: NdArray<int>, b: NdArray<int>, idx: seq<nat>): int
    requires a.Valid() && b.Valid() && |a.shape| == |b.shape| && InBounds(Times(a.shape, b.shape), idx)
  {
    SplitIndex(a.shape, b.shape, idx);
    a.At(Outer(idx, b.shape)) * b.At(Inner(idx, b.shape))
  }

  /** The textbook product of two arrays of one rank. */
  function SameRank(a: NdArray<int>, b: NdArray<int>): (r: NdArray<int>)
    requires a.Valid() && b.Valid() && |a.shape| == |b.shape|
    ensures r.Valid() && r.shape == Times(a.shape, b.shape)
  {
    var shape := Times(a.shape, b.shape);
    NdArray(shape, seq(Prod(shape), r requires 0 <= r < Prod(shape) => SameRankAt(a, b, Unravel(shape, r))))
  }

  /** The textbook product: the shorter shape is padded with leading ones. */
  function Direct(a: NdArray<int>, b: NdArray<int>): (r: NdArray<int>)
    requires a.Valid() && b.Valid()
    ensures r.Valid() && |r.shape| == Max(|a.shape|, |b.shape|)
  {
    var n := Max(|a.shape|, |b.shape|);
    AtLeastValid(a, n);
    AtLeastValid(b, n);
    SameRank(AtLeast(a, n), AtLeast(b, n))
  }

  /** Element i * bs + j of the product is a[i] * b[j]. */
  lemma SameRankElement(a: NdArray<int>, b: NdArray<int>, i: seq<nat>, j: seq<nat>)
    requires a.Valid() && b.Valid() && |a.shape| == |b.shape|
    requires InBounds(a.shape, i) && InBounds(b.shape, j)
    ensures InBounds(Times(a.shape, b.shape), Combine(i, b.shape, j))
    ensures SameRank(a, b).At(Combine(i, b.shape, j)) == a.At(i) * b.At(j)
  {
    CombineInBounds(a.shape, b.shape, i, j);
    UnravelOfRavel(Times(a.shape, b.shape), Combine(i, b.shape, j));
    SplitUnique(a.shape, b.shape, i, j);
  }

  lemma SameRankSplit(a: NdArray<int>, b: NdArray<int>, idx: seq<nat>)
    requires a.Valid() && b.Valid() && |a.shape| == |b.shape| && InBounds(Times(a.shape, b.shape), idx)
    ensures Divisors(a.shape, b.shape, idx)
    ensures SameRank(a, b).At(idx) == a.At(Outer(idx, b.shape)) * b.At(Inner(idx, b.shape))
  {
    SplitIndex(a.shape, b.shape, idx);
    UnravelOfRavel(Times(a.shape, b.shape), idx);
  }

  // ----- the composition computes the direct definition -----

  lemma {:induction false} BroadcastInterleaved(as_: seq<nat>, bs: seq<nat>)
    requires |as_| == |bs|
    ensures BroadcastShape(Interleave(as_, Ones(|as_|)), Interleave(Ones(|as_|), bs)) == Success(Interleave(as_, bs))
  {
    var n := |as_|;
    var s, t, r := Interleave(as_, Ones(n)), Interleave(Ones(n), bs), Interleave(as_, bs);
    assert Ones(0) + s == s && Ones(0) + t == t;
    forall k | 0 <= k < 2 * n
      ensures Compatible(s[k], t[k]) && BroadcastAxis(s[k], t[k]) == r[k]
    {
      InterleaveAt(as_, Ones(n), k);
      InterleaveAt(Ones(n), bs, k);
      InterleaveAt(as_, bs, k);
    }
    assert BroadcastShape(s, t).value == r;
  }

  lemma {:induction false} InterleaveAt(s: seq<nat>, t: seq<nat>, k: nat)
    requires |s| == |t| && k < 2 * |s|
    ensures Interleave(s, t)[k] == if k % 2 == 0 then s[k / 2] else t[k / 2]
  {
    if k < 2 {
    } else {
      InterleaveAt(s[1..], t[1..], k - 2);
    }
  }

  lemma FirstElement(as_: seq<nat>, i: seq<nat>)
    requires InBounds(as_, i)
    ensures var n := |as_|;
            && InBounds(Interleave(as_, Ones(n)), Interleave(i, Zeros(n)))
            && Ravel(Interleave(as_, Ones(n)), Interleave(i, Zeros(n))) == Ravel(as_, i)
  {
    var n := |as_|;
    MixedRadix(as_, Ones(n), i, Zeros(n));
    TrivialDigits(as_, i, Ones(n), Zeros(n));
  }

  lemma TrivialDigits(as_: seq<nat>, i: seq<nat>, ones: seq<nat>, zeros: seq<nat>)
    requires |as_| == |i| == |ones| == |zeros|
    requires forall k :: 0 <= k < |ones| ==> ones[k] == 1 && zeros[k] == 0
    ensures Times(as_, ones) == as_ && Combine(i, ones, zeros) == i
  {
  }

  lemma SecondElement(bs: seq<nat>, j: seq<nat>)
    requires InBounds(bs, j)
    ensures var n := |bs|;
            && InBounds(Interleave(Ones(n), bs), Interleave(Zeros(n), j))
            && Ravel(Interleave(Ones(n), bs), Interleave(Zeros(n), j)) == Ravel(bs, j)
  {
    var n := |bs|;
    MixedRadix(Ones(n), bs, Zeros(n), j);
    OneBlock(bs, j);
  }

  lemma OneBlock(bs: seq<nat>, j: seq<nat>)
    requires |bs| == |j|
    ensures Times(Ones(|bs|), bs) == bs && Combine(Zeros(|bs|), bs, j) == j
  {
  }

  lemma PadCombine(m: nat, i: seq<nat>, bs: seq<nat>, j: seq<nat>)
    requires |i| == |bs| == |j|
    ensures Combine(Zeros(m) + i, Ones(m) + bs, Zeros(m) + j) == Zeros(m) + Combine(i, bs, j)
  {
  }

  lemma SourceInterleaved(as_: seq<nat>, bs: seq<nat>, i: seq<nat>, j: seq<nat>)
    requires |as_| == |bs| && InBounds(as_, i) && InBounds(bs, j)
    ensures var n := |as_|;
            && Source(Interleave(as_, Ones(n)), Interleave(i, j)) == Interleave(i, Zeros(n))
            && Source(Interleave(Ones(n), bs), Interleave(i, j)) == Interleave(Zeros(n), j)
  {
    var n := |as_|;
    forall k | 0 <= k < 2 * n
      ensures Source(Interleave(as_, Ones(n)), Interleave(i, j))[k] == Interleave(i, Zeros(n))[k]
      ensures Source(Interleave(Ones(n), bs), Interleave(i, j))[k] == Interleave(Zeros(n), j)[k]
    {
      InterleaveAt(as_, Ones(n), k);
      InterleaveAt(Ones(n), bs, k);
      InterleaveAt(i, j, k);
      InterleaveAt(i, Zeros(n), k);
      InterleaveAt(Zeros(n), j, k);
      assert i[k / 2] < as_[k / 2] && j[k / 2] < bs[k / 2];
    }
  }

  lemma SpreadValid(a: NdArray<int>, b: NdArray<int>)
    requires a.Valid() && b.Valid() && |a.shape| == |b.shape|
    ensures NdArray(Interleave(a.shape, Ones(|a.shape|)), a.data).Valid()
    ensures NdArray(Interleave(Ones(|a.shape|), b.shape), b.data).Valid()
  {
    FirstOperand(a, 0);
    SecondOperand(b, |a.shape|);
    assert AtLeast(b, |a.shape|).shape == b.shape;
  }

  lemma InterleavedProduct(a: NdArray<int>, b: NdArray<int>)
    requires a.Valid() && b.Valid() && |a.shape| == |b.shape|
    ensures var n := |a.shape|;
            var a2 := NdArray(Interleave(a.shape, Ones(n)), a.data);
            var b2 := NdArray(Interleave(Ones(n), b.shape), b.data);
            && a2.Valid() && b2.Valid()
            && Multiply(a2, b2) == Success(NdArray(Interleave(a.shape, b.shape), SameRank(a, b).data))
  {
    var n := |a.shape|;
    SpreadValid(a, b);
    var a2 := NdArray(Interleave(a.shape, Ones(n)), a.data);
    var b2 := NdArray(Interleave(Ones(n), b.shape), b.data);
    BroadcastInterleaved(a.shape, b.shape);
    InterleaveProd(a.shape, b.shape);
    var data := Multiply(a2, b2).value.data;
    forall r | 0 <= r < |data|
      ensures data[r] == SameRank(a, b).data[r]
    {
      ProductElement(a, b, r);
    }
    assert data == SameRank(a, b).data;
  }

  lemma ProductElement(a: NdArray<int>, b: NdArray<int>, r: nat)
    requires a.Valid() && b.Valid() && |a.shape| == |b.shape| && r < Prod(Times(a.shape, b.shape))
    ensures var n := |a.shape|;
            var a2 := NdArray(Interleave(a.shape, Ones(n)), a.data);
            var b2 := NdArray(Interleave(Ones(n), b.shape), b.data);
            && a2.Valid() && b2.Valid()
            && BroadcastShape(a2.shape, b2.shape) == Success(Interleave(a.shape, b.shape))
            && Prod(Interleave(a.shape, b.shape)) == Prod(Times(a.shape, b.shape))
            && ProductAt(a2, b2, Unravel(Interleave(a.shape, b.shape), r)) ==
               SameRankAt(a, b, Unravel(Times(a.shape, b.shape), r))
  {
    SpreadValid(a, b);
    BroadcastInterleaved(a.shape, b.shape);
    InterleaveProd(a.shape, b.shape);
    var idx := Unravel(Times(a.shape, b.shape), r);
    SplitIndex(a.shape, b.shape, idx);
    var i, j := Outer(idx, b.shape), Inner(idx, b.shape);
    MixedRadix(a.shape, b.shape, i, j);
    UnravelOfRavel(Interleave(a.shape, b.shape), Interleave(i, j));
    SourceInterleaved(a.shape, b.shape, i, j);
    FirstElement(a.shape, i);
    SecondElement(b.shape, j);
  }

  /** For all arrays kron succeeds and computes the textbook product. */
  lemma KronIsDirect(a0: NdArray<int>, b: NdArray<int>)
    requires a0.Valid() && b.Valid()
    ensures Kron(a0, b) == Success(Direct(a0, b))
  {
    var ndb := |b.shape|;
    AtLeastValid(a0, ndb);
    var a := AtLeast(a0, ndb);
    var n := |a.shape|;
    AtLeastValid(b, n);
    var bp := AtLeast(b, n);
    assert AtLeast(a0, n) == a;
    if n == 0 || ndb == 0 {
      ScalarProduct(a, b);
    } else {
      ComposedProduct(a, b, bp);
    }
  }

  /** The two expanded operands multiplied and reshaped, with b padded to bp. */
  lemma ComposedProduct(a: NdArray<int>, b: NdArray<int>, bp: NdArray<int>)
    requires a.Valid() && b.Valid() && 0 < |b.shape| <= |a.shape| && bp == AtLeast(b, |a.shape|) && bp.Valid()
    ensures Composed(a, b) == Success(SameRank(a, bp))
  {
    var n := |a.shape|;
    FirstOperand(a, |b.shape| - n);
    SecondOperand(b, n);
    InterleavedProduct(a, bp);
    InterleaveProd(a.shape, bp.shape);
    assert Ones(|b.shape| - n) + a.shape == a.shape;
  }

  /**
    With the shorter shape padded by leading ones, the product has on every axis the product of
    the two lengths, and its element at i * bs + j is a[i] * b[j], for all ranks including scalars.
   */
  lemma KronElement(a: NdArray<int>, b: NdArray<int>, i: seq<nat>, j: seq<nat>)
    requires a.Valid() && b.Valid()
    requires var n := Max(|a.shape|, |b.shape|);
             InBounds(AtLeast(a, n).shape, i) && InBounds(AtLeast(b, n).shape, j)
    ensures var n := Max(|a.shape|, |b.shape|);
            var pa, pb := AtLeast(a, n), AtLeast(b, n);
            && pa.Valid() && pb.Valid() && |pa.shape| == |pb.shape| == n
            && Kron(a, b).Success?
            && Kron(a, b).value.Valid()
            && Kron(a, b).value.shape == Times(pa.shape, pb.shape)
            && InBounds(Times(pa.shape, pb.shape), Combine(i, pb.shape, j))
            && Kron(a, b).value.At(Combine(i, pb.shape, j)) == pa.At(i) * pb.At(j)
  {
    var n := Max(|a.shape|, |b.shape|);
    AtLeastValid(a, n);
    AtLeastValid(b, n);
    KronIsDirect(a, b);
    SameRankElement(AtLeast(a, n), AtLeast(b, n), i, j);
  }

  /** Entry k of a list aligned at the end of n places, with a filling before it. */
  function Aligned(s: seq<nat>, n: nat, k: nat, filling: nat): nat
    requires |s| <= n && k < n
  {
    if k < n - |s| then filling else s[k - (n - |s|)]
  }

  lemma AlignedIs(s: seq<nat>, padded: seq<nat>, n: nat, filling: nat)
    requires |s| <= n && |padded| == n
    requires forall k :: 0 <= k < n - |s| ==> padded[k] == filling
    requires forall k :: 0 <= k < |s| ==> padded[n - |s| + k] == s[k]
    ensures forall k :: 0 <= k < n ==> padded[k] == Aligned(s, n, k, filling)
  {
    forall k | 0 <= k < n
      ensures padded[k] == Aligned(s, n, k, filling)
    {
      if k >= n - |s| {
        assert padded[n - |s| + (k - (n - |s|))] == s[k - (n - |s|)];
      }
    }
  }

  /**
    With both shapes aligned at their last axes and filled up with ones: the lengths multiply, and
    the element whose index is that of a times the length of b plus that of b is the product of the two.
   */
  lemma KronAt(a: NdArray<int>, b: NdArray<int>, n: nat, i: seq<nat>, j: seq<nat>, r: seq<nat>)
    requires a.Valid() && b.Valid() && InBounds(a.shape, i) && InBounds(b.shape, j)
    requires |r| == n == Max(|a.shape|, |b.shape|)
    requires forall k :: 0 <= k < n ==> r[k] == Aligned(i, n, k, 0) * Aligned(b.shape, n, k, 1) + Aligned(j, n, k, 0)
    ensures Kron(a, b).Success?
    ensures var c := Kron(a, b).value;
            && c.Valid() && |c.shape| == n
            && (forall k :: 0 <= k < n ==> c.shape[k] == Aligned(a.shape, n, k, 1) * Aligned(b.shape, n, k, 1))
            && InBounds(c.shape, r) && c.At(r) == a.At(i) * b.At(j)
  {
    PadFacts(a, n, i);
    PadFacts(b, n, j);
    KronElement(a, b, Padded(i, n), Padded(j, n));
    SameCombination(Padded(i, n), AtLeast(b, n).shape, Padded(j, n), r);
  }

  function Padded(i: seq<nat>, n: nat): (r: seq<nat>)
    requires |i| <= n
    ensures |r| == n && forall k :: 0 <= k < n ==> r[k] == Aligned(i, n, k, 0)
  {
    Zeros(n - |i|) + i
  }

  lemma PadFacts(a: NdArray<int>, n: nat, i: seq<nat>)
    requires a.Valid() && |a.shape| <= n && InBounds(a.shape, i)
    ensures var pa := AtLeast(a, n);
            && pa.Valid() && |pa.shape| == n && InBounds(pa.shape, Padded(i, n)) && pa.At(Padded(i, n)) == a.At(i)
            && forall k :: 0 <= k < n ==> pa.shape[k] == Aligned(a.shape, n, k, 1)
  {
    PadRavel(n - |a.shape|, a.shape, i);
    AlignedIs(a.shape, AtLeast(a, n).shape, n, 1);
  }

  lemma SameCombination(i: seq<nat>, bs: seq<nat>, j: seq<nat>, r: seq<nat>)
    requires |i| == |bs| == |j| == |r| && forall k :: 0 <= k < |r| ==> r[k] == i[k] * bs[k] + j[k]
    ensures r == Combine(i, bs, j)
  {
  }

  lemma ScalarElement(a: NdArray<int>, b: NdArray<int>, idx: seq<nat>)
    requires a.Valid() && b.Valid() && b.shape == [] && InBounds(a.shape, idx)
    ensures var bp := AtLeast(b, |a.shape|);
            && bp.Valid() && |bp.shape| == |a.shape|
            && InBounds(Times(a.shape, bp.shape), idx)
            && SameRankAt(a, bp, idx) == a.At(idx) * b.At([])
  {
    var n := |a.shape|;
    AtLeastValid(b, n);
    var bp := AtLeast(b, n);
    assert bp.shape == Ones(n) && Times(a.shape, bp.shape) == a.shape;
    SplitIndex(a.shape, bp.shape, idx);
    DivByOne(idx);
    PaddedElement(b, n, []);
    assert Outer(idx, bp.shape) == idx && Inner(idx, bp.shape) == Zeros(n) + [];
  }

  lemma ScalarBroadcast(a: NdArray<int>, b: NdArray<int>)
    requires a.Valid() && b.Valid() && b.shape == []
    ensures BroadcastShape(a.shape, b.shape) == Success(a.shape)
    ensures forall idx :: InBounds(a.shape, idx) ==> ProductAt(a, b, idx) == a.At(idx) * b.At([])
  {
    var n := |a.shape|;
    assert Ones(0) + a.shape == a.shape && Ones(n) + b.shape == Ones(n);
    assert BroadcastShape(a.shape, b.shape).value == a.shape;
    forall idx | InBounds(a.shape, idx)
      ensures ProductAt(a, b, idx) == a.At(idx) * b.At([])
    {
      assert Source(a.shape, idx) == idx && Source(b.shape, idx) == [];
    }
  }

  lemma ScalarProduct(a: NdArray<int>, b: NdArray<int>)
    requires a.Valid() && b.Valid() && b.shape == []
    ensures AtLeast(b, |a.shape|).Valid() && |AtLeast(b, |a.shape|).shape| == |a.shape|
    ensures Multiply(a, b) == Success(SameRank(a, AtLeast(b, |a.shape|)))
  {
    var n := |a.shape|;
    AtLeastValid(b, n);
    var bp := AtLeast(b, n);
    assert Times(a.shape, bp.shape) == a.shape;
    ScalarBroadcast(a, b);
    forall r | 0 <= r < Prod(a.shape)
      ensures ProductAt(a, b, Unravel(a.shape, r)) == SameRankAt(a, bp, Unravel(a.shape, r))
    {
      ScalarElement(a, b, Unravel(a.shape, r));
    }
    assert Multiply(a, b).value.data == SameRank(a, bp).data;
  }

  lemma DivByOne(idx: seq<nat>)
    ensures forall k :: 0 <= k < |idx| ==> idx[k] / 1 == idx[k] && idx[k] % 1 == 0
  {
  }

  // ----- associativity -----

  lemma {:induction false} PaddedIndex(m: nat, shape: seq<nat>, idx: seq<nat>)
    requires InBounds(Ones(m) + shape, idx)
    ensures InBounds(shape, idx[m..]) && idx == Zeros(m) + idx[m..]
  {
    assert forall k :: 0 <= k < m ==> idx[k] < (Ones(m) + shape)[k];
    assert forall k :: 0 <= k < |shape| ==> idx[m..][k] < (Ones(m) + shape)[m + k];
  }

  lemma PaddedElement(a: NdArray<int>, n: nat, idx: seq<nat>)
    requires a.Valid() && n >= |a.shape| && InBounds(a.shape, idx)
    ensures AtLeast(a, n).Valid() && InBounds(AtLeast(a, n).shape, Zeros(n - |a.shape|) + idx)
    ensures AtLeast(a, n).At(Zeros(n - |a.shape|) + idx) == a.At(idx)
  {
    PadRavel(n - |a.shape|, a.shape, idx);
    AtLeastValid(a, n);
  }

  lemma PadSameRankAt(a: NdArray<int>, b: NdArray<int>, n: nat, x: seq<nat>)
    requires a.Valid() && b.Valid() && |a.shape| == |b.shape| <= n
    requires InBounds(Times(a.shape, b.shape), x)
    requires AtLeast(a, n).Valid() && AtLeast(b, n).Valid() && |AtLeast(a, n).shape| == |AtLeast(b, n).shape| == n
    ensures var idx := Zeros(n - |a.shape|) + x;
            && InBounds(Times(AtLeast(a, n).shape, AtLeast(b, n).shape), idx)
            && SameRank(AtLeast(a, n), AtLeast(b, n)).At(idx) == SameRank(a, b).At(x)
  {
    var m := n - |a.shape|;
    SameRankSplit(a, b, x);
    var i, j := Outer(x, b.shape), Inner(x, b.shape);
    PaddedElement(a, n, i);
    PaddedElement(b, n, j);
    SameRankElement(AtLeast(a, n), AtLeast(b, n), Zeros(m) + i, Zeros(m) + j);
    PadCombine(m, i, b.shape, j);
  }

  /** Padding both operands pads the product. */
  lemma PadSameRank(a: NdArray<int>, b: NdArray<int>, n: nat)
    requires a.Valid() && b.Valid() && |a.shape| == |b.shape| <= n
    ensures AtLeast(a, n).Valid() && AtLeast(b, n).Valid()
    ensures |AtLeast(a, n).shape| == |AtLeast(b, n).shape| == n
    ensures AtLeast(SameRank(a, b), n) == SameRank(AtLeast(a, n), AtLeast(b, n))
  {
    AtLeastValid(a, n);
    AtLeastValid(b, n);
    var c := SameRank(a, b);
    AtLeastValid(c, n);
    var padded, product := AtLeast(c, n), SameRank(AtLeast(a, n), AtLeast(b, n));
    assert padded.shape == product.shape;
    forall idx: seq<nat> | InBounds(padded.shape, idx)
      ensures padded.At(idx) == product.At(idx)
    {
      PaddedIndex(n - |a.shape|, c.shape, idx);
      PaddedElement(c, n, idx[n - |a.shape|..]);
      PadSameRankAt(a, b, n, idx[n - |a.shape|..]);
    }
    Extensional(padded, product);
  }

  lemma TimesAssoc(s: seq<nat>, t: seq<nat>, u: seq<nat>)
    requires |s| == |t| == |u|
    ensures Times(Times(s, t), u) == Times(s, Times(t, u))
  {
    forall k | 0 <= k < |s|
      ensures Times(Times(s, t), u)[k] == Times(s, Times(t, u))[k]
    {
      MulAssoc(s[k], t[k], u[k]);
    }
  }

  lemma CombineAssoc(i: seq<nat>, bs: seq<nat>, j: seq<nat>, cs: seq<nat>, l: seq<nat>)
    requires |i| == |bs| == |j| == |cs| == |l|
    ensures Combine(Combine(i, bs, j), cs, l) == Combine(i, Times(bs, cs), Combine(j, cs, l))
  {
    forall k | 0 <= k < |i|
      ensures Combine(Combine(i, bs, j), cs, l)[k] == Combine(i, Times(bs, cs), Combine(j, cs, l))[k]
    {
      Distribute(i[k] * bs[k], j[k], cs[k]);
      MulAssoc(i[k], bs[k], cs[k]);
    }
  }

  lemma SameRankAssoc(a: NdArray<int>, b: NdArray<int>, c: NdArray<int>)
    requires a.Valid() && b.Valid() && c.Valid() && |a.shape| == |b.shape| == |c.shape|
    ensures SameRank(SameRank(a, b), c) == SameRank(a, SameRank(b, c))
  {
    var left, right := SameRank(SameRank(a, b), c), SameRank(a, SameRank(b, c));
    TimesAssoc(a.shape, b.shape, c.shape);
    forall idx: seq<nat> | InBounds(left.shape, idx)
      ensures left.At(idx) == right.At(idx)
    {
      SameRankSplit(SameRank(a, b), c, idx);
      var ij, l := Outer(idx, c.shape), Inner(idx, c.shape);
      SameRankSplit(a, b, ij);
      var i, j := Outer(ij, b.shape), Inner(ij, b.shape);
      SameRankElement(b, c, j, l);
      SameRankElement(a, SameRank(b, c), i, Combine(j, c.shape, l));
      CombineAssoc(i, b.shape, j, c.shape, l);
      MulAssoc(a.At(i), b.At(j), c.At(l));
    }
    Extensional(left, right);
  }

  lemma PadTwice<T>(a: NdArray<T>, m: nat, n: nat)
    requires m <= n
    ensures AtLeast(AtLeast(a, m), n) == AtLeast(a, n)
  {
  }

  /** kron(kron(a, b), c) and kron(a, kron(b, c)) are the same array, for all arrays of all ranks. */
  lemma KronAssoc(a: NdArray<int>, b: NdArray<int>, c: NdArray<int>)
    requires a.Valid() && b.Valid() && c.Valid()
    ensures Kron(a, b).Success? && Kron(b, c).Success?
    ensures Kron(a, b).value.Valid() && Kron(b, c).value.Valid()
    ensures Kron(Kron(a, b).value, c) == Kron(a, Kron(b, c).value)
    ensures Kron(a, Kron(b, c).value).Success?
  {
    KronIsDirect(a, b);
    KronIsDirect(b, c);
    KronIsDirect(Direct(a, b), c);
    KronIsDirect(a, Direct(b, c));
    DirectAssoc(a, b, c);
  }

  lemma DirectAssoc(a: NdArray<int>, b: NdArray<int>, c: NdArray<int>)
    requires a.Valid() && b.Valid() && c.Valid()
    ensures Direct(Direct(a, b), c) == Direct(a, Direct(b, c))
  {
    var mab, mbc := Max(|a.shape|, |b.shape|), Max(|b.shape|, |c.shape|);
    var n := Max(mab, |c.shape|);
    AtLeastValid(a, mab);
    AtLeastValid(b, mab);
    AtLeastValid(b, mbc);
    AtLeastValid(c, mbc);
    AtLeastValid(a, n);
    AtLeastValid(b, n);
    AtLeastValid(c, n);
    PadSameRank(AtLeast(a, mab), AtLeast(b, mab), n);
    PadSameRank(AtLeast(b, mbc), AtLeast(c, mbc), n);
    PadTwice(a, mab, n);
    PadTwice(b, mab, n);
    PadTwice(b, mbc, n);
    PadTwice(c, mbc, n);
    SameRankAssoc(AtLeast(a, n), AtLeast(b, n), AtLeast(c, n));
  }
}
