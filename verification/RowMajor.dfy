/** Shapes, row-major indexing and n-dimensional arrays as a shape plus flat data. */
module RowMajor {
  import opened Arith

  /** Product of the extents: the number of elements of an array of this shape. */
  function Prod(shape: seq<nat>): (n: nat) {
    if shape == [] then 1 else shape[0] * Prod(shape[1..])
  }

  predicate InBounds(shape: seq<nat>, idx: seq<nat>) {
    |idx| == |shape| && forall k :: 0 <= k < |shape| ==> idx[k] < shape[k]
  }

  /** Row-major (C order) rank of a multi-index: the last axis runs fastest. */
  function Ravel(shape: seq<nat>, idx: seq<nat>): (r: nat)
    requires InBounds(shape, idx)
    ensures r < Prod(shape)
  {
    if shape == [] then 0
    else
      assert InBounds(shape[1..], idx[1..]);
      var rest := Ravel(shape[1..], idx[1..]);
      MulLeSuccessor(idx[0], shape[0], Prod(shape[1..]));
      idx[0] * Prod(shape[1..]) + rest
  }

  lemma RavelCons(n: nat, shape: seq<nat>, i: nat, idx: seq<nat>)
    requires i < n && InBounds(shape, idx)
    ensures InBounds([n] + shape, [i] + idx)
    ensures Ravel([n] + shape, [i] + idx) == i * Prod(shape) + Ravel(shape, idx)
    ensures Prod([n] + shape) == n * Prod(shape)
  {
    assert ([n] + shape)[1..] == shape;
    assert ([i] + idx)[1..] == idx;
  }

  lemma PositiveFactors(r: nat, n: nat, q: nat)
    requires r < n * q
    ensures q > 0
  {
    assert q == 0 ==> n * q == 0;
  }

  lemma HeadDigit(r: nat, n: nat, q: nat)
    requires q > 0 && r < n * q
    ensures 0 <= r / q < n && 0 <= r % q < q && r == (r / q) * q + r % q
  {
    DivBound(r, q, n);
    DivModDef(r, q);
  }

  /** The multi-index of a row-major rank. */
  function Unravel(shape: seq<nat>, r: nat): (idx: seq<nat>)
    requires r < Prod(shape)
    ensures InBounds(shape, idx)
    ensures Ravel(shape, idx) == r
  {
    if shape == [] then []
    else
      var q := Prod(shape[1..]);
      PositiveFactors(r, shape[0], q);
      HeadDigit(r, shape[0], q);
      RavelCons(shape[0], shape[1..], r / q, Unravel(shape[1..], r % q));
      assert [shape[0]] + shape[1..] == shape;
      [r / q] + Unravel(shape[1..], r % q)
  }

  /** Ranks determine multi-indices: together with Unravel's contract, Ravel is a bijection. */
  lemma {:induction false} UnravelOfRavel(shape: seq<nat>, idx: seq<nat>)
    requires InBounds(shape, idx)
    ensures Unravel(shape, Ravel(shape, idx)) == idx
  {
    if shape == [] {
    } else {
      assert InBounds(shape[1..], idx[1..]);
      UnravelOfRavel(shape[1..], idx[1..]);
      DivModUnique(Ravel(shape, idx), idx[0], Ravel(shape[1..], idx[1..]), Prod(shape[1..]));
      assert idx == [idx[0]] + idx[1..];
    }
  }

  lemma {:induction false} ProdAppend(s: seq<nat>, t: seq<nat>)
    ensures Prod(s + t) == Prod(s) * Prod(t)
  {
    if s == [] {
      assert s + t == t;
    } else {
      assert (s + t)[1..] == s[1..] + t;
      ProdAppend(s[1..], t);
      assert s[0] * (Prod(s[1..]) * Prod(t)) == (s[0] * Prod(s[1..])) * Prod(t);
    }
  }

  lemma {:induction false} ProdZero(s: seq<nat>, k: nat)
    requires k < |s| && s[k] == 0
    ensures Prod(s) == 0
  {
    if k == 0 {
    } else {
      ProdZero(s[1..], k - 1);
    }
  }

  lemma {:induction false} ProdOnes(s: seq<nat>)
    requires forall k :: 0 <= k < |s| ==> s[k] == 1
    ensures Prod(s) == 1
  {
    if s == [] {
    } else {
      ProdOnes(s[1..]);
    }
  }

  lemma {:induction false} ProdPositive(s: seq<nat>)
    requires forall k :: 0 <= k < |s| ==> s[k] > 0
    ensures Prod(s) > 0
  {
    if s == [] {
    } else {
      ProdPositive(s[1..]);
    }
  }

  datatype NdArray<T> = NdArray(shape: seq<nat>, data: seq<T>) {
    predicate Valid() {
      |data| == Prod(shape)
    }

    function At(idx: seq<nat>): T
      requires Valid() && InBounds(shape, idx)
    {
      data[Ravel(shape, idx)]
    }
  }

  /** Arrays with the same shape and the same element at every multi-index are equal. */
  lemma Extensional<T>(a: NdArray<T>, b: NdArray<T>)
    requires a.Valid() && b.Valid() && a.shape == b.shape
    requires forall idx: seq<nat> :: InBounds(a.shape, idx) ==> a.At(idx) == b.At(idx)
    ensures a == b
  {
    forall r | 0 <= r < |a.data|
      ensures a.data[r] == b.data[r]
    {
      var idx := Unravel(a.shape, r);
      assert a.At(idx) == b.At(idx);
    }
    assert a.data == b.data;
  }
}
