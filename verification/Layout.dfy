/** Row-major (C) and column-major (F) reading orders, and reshaping in either order. */
module Layout {
  import opened Arith
  import opened RowMajor

  datatype Order = C | F

  function Reverse(s: seq<nat>): (r: seq<nat>)
    ensures |r| == |s| && forall k :: 0 <= k < |s| ==> r[k] == s[|s| - 1 - k]
  {
    seq(|s|, k requires 0 <= k < |s| => s[|s| - 1 - k])
  }

  lemma ReverseTwice(s: seq<nat>)
    ensures Reverse(Reverse(s)) == s
  {
  }

  lemma ReverseInBounds(shape: seq<nat>, idx: seq<nat>)
    requires InBounds(Reverse(shape), idx)
    ensures InBounds(shape, Reverse(idx))
  {
    forall k | 0 <= k < |shape|
      ensures Reverse(idx)[k] < shape[k]
    {
      assert Reverse(shape)[|shape| - 1 - k] == shape[k];
    }
  }

  lemma {:induction false} ProdReverse(s: seq<nat>)
    ensures Prod(Reverse(s)) == Prod(s)
  {
    if s == [] {
    } else {
      ProdReverse(s[1..]);
      assert Reverse(s) == Reverse(s[1..]) + [s[0]];
      ProdAppend(Reverse(s[1..]), [s[0]]);
      assert [s[0]][1..] == [];
      assert Prod([s[0]]) == s[0] * 1;
    }
  }

  /** The place of a multi-index in the reading order: in F order the first axis runs fastest. */
  function Rank(o: Order, shape: seq<nat>, idx: seq<nat>): (r: nat)
    requires InBounds(shape, idx)
    ensures r < Prod(shape)
  {
    match o
    case C => Ravel(shape, idx)
    case F =>
      ProdReverse(shape);
      Ravel(Reverse(shape), Reverse(idx))
  }

  /** The multi-index at a place of the reading order. */
  function Place(o: Order, shape: seq<nat>, r: nat): (idx: seq<nat>)
    requires r < Prod(shape)
    ensures InBounds(shape, idx)
    ensures Rank(o, shape, idx) == r
  {
    match o
    case C => Unravel(shape, r)
    case F =>
      ProdReverse(shape);
      var idx := Unravel(Reverse(shape), r);
      ReverseTwice(idx);
      ReverseInBounds(shape, idx);
      Reverse(idx)
  }

  lemma PlaceOfRank(o: Order, shape: seq<nat>, idx: seq<nat>)
    requires InBounds(shape, idx)
    ensures Place(o, shape, Rank(o, shape, idx)) == idx
  {
    if o == C {
      UnravelOfRavel(shape, idx);
    } else {
      UnravelOfRavel(Reverse(shape), Reverse(idx));
      ReverseTwice(idx);
    }
  }

  // ----- which axis runs fastest -----

  /** The distance between neighbours on axis k: in C order the axes after it, in F order the axes before it. */
  function Stride(o: Order, shape: seq<nat>, k: nat): nat
    requires k < |shape|
  {
    match o
    case C => Prod(shape[k + 1..])
    case F => Prod(shape[..k])
  }

  /** The sum over the first n axes of index times stride. */
  function Offset(o: Order, shape: seq<nat>, idx: seq<nat>, n: nat): nat
    requires |idx| == |shape| && n <= |shape|
  {
    if n == 0 then 0 else Offset(o, shape, idx, n - 1) + idx[n - 1] * Stride(o, shape, n - 1)
  }

  lemma {:induction false} RavelSnoc(shape: seq<nat>, n: nat, idx: seq<nat>, i: nat)
    requires InBounds(shape, idx) && i < n
    ensures InBounds(shape + [n], idx + [i])
    ensures Ravel(shape + [n], idx + [i]) == Ravel(shape, idx) * n + i
  {
    ProdOne(n);
    if shape == [] {
      assert shape + [n] == [n] && idx + [i] == [i];
    } else {
      var shape', idx' := shape[1..], idx[1..];
      assert InBounds(shape', idx');
      RavelSnoc(shape', n, idx', i);
      ProdAppend(shape', [n]);
      SnocHead(shape[0], shape', n, idx[0], idx', i);
      assert [shape[0]] + shape' == shape && [idx[0]] + idx' == idx;
    }
  }

  lemma ProdOne(n: nat)
    ensures Prod([n]) == n
  {
    assert [n][1..] == [];
  }

  lemma SnocHead(m: nat, shape: seq<nat>, n: nat, j: nat, idx: seq<nat>, i: nat)
    requires InBounds(shape, idx) && i < n && j < m && InBounds(shape + [n], idx + [i])
    requires Ravel(shape + [n], idx + [i]) == Ravel(shape, idx) * n + i && Prod(shape + [n]) == Prod(shape) * n
    ensures InBounds([m] + shape + [n], [j] + idx + [i])
    ensures Ravel([m] + shape + [n], [j] + idx + [i]) == Ravel([m] + shape, [j] + idx) * n + i
  {
    RavelCons(m, shape + [n], j, idx + [i]);
    RavelCons(m, shape, j, idx);
    assert [m] + (shape + [n]) == [m] + shape + [n] && [j] + (idx + [i]) == [j] + idx + [i];
    SnocStep(j, Prod(shape), Ravel(shape, idx), n, i);
  }

  lemma SnocStep(i0: nat, q: nat, rest: nat, n: nat, i: nat)
    ensures i0 * (q * n) + (rest * n + i) == (i0 * q + rest) * n + i
  {
    MulAssoc(i0, q, n);
    Distribute(i0 * q, rest, n);
  }

  lemma ReverseCons(n: nat, s: seq<nat>)
    ensures Reverse([n] + s) == Reverse(s) + [n]
  {
  }

  lemma ReverseSnoc(s: seq<nat>, n: nat)
    ensures Reverse(s + [n]) == [n] + Reverse(s)
  {
  }

  lemma ConsInBounds(n: nat, shape: seq<nat>, i: nat, idx: seq<nat>)
    requires i < n && InBounds(shape, idx)
    ensures InBounds([n] + shape, [i] + idx) && InBounds(shape + [n], idx + [i])
    ensures InBounds(Reverse(shape), Reverse(idx))
  {
  }

  /** In F order the first axis runs fastest. */
  lemma FirstFastest(n: nat, shape: seq<nat>, i: nat, idx: seq<nat>)
    requires i < n && InBounds(shape, idx)
    ensures InBounds([n] + shape, [i] + idx)
    ensures Rank(F, [n] + shape, [i] + idx) == i + Rank(F, shape, idx) * n
  {
    ConsInBounds(n, shape, i, idx);
    ReverseCons(n, shape);
    ReverseCons(i, idx);
    RavelLast(Reverse(shape), n, Reverse(idx), i, Reverse([n] + shape), Reverse([i] + idx));
  }

  lemma RavelLast(shape: seq<nat>, n: nat, idx: seq<nat>, i: nat, longer: seq<nat>, index: seq<nat>)
    requires i < n && InBounds(shape, idx)
    requires longer == shape + [n] && index == idx + [i]
    ensures InBounds(longer, index) && Ravel(longer, index) == i + Ravel(shape, idx) * n
  {
    RavelSnoc(shape, n, idx, i);
  }

  /** In C order the last axis does. */
  lemma LastFastest(shape: seq<nat>, n: nat, idx: seq<nat>, i: nat)
    requires i < n && InBounds(shape, idx)
    ensures InBounds(shape + [n], idx + [i])
    ensures Rank(C, shape + [n], idx + [i]) == Rank(C, shape, idx) * n + i
  {
    RavelSnoc(shape, n, idx, i);
  }

  /** The place of a multi-index is the sum of its entries, each times the stride of its axis. */
  lemma {:induction false} RankIsOffset(o: Order, shape: seq<nat>, idx: seq<nat>)
    requires InBounds(shape, idx)
    ensures Rank(o, shape, idx) == Offset(o, shape, idx, |shape|)
    decreases |shape|
  {
    var m := |shape|;
    if m == 0 {
    } else {
      RankIsOffset(o, shape[..m - 1], idx[..m - 1]);
      OffsetPrefix(o, shape, idx, m - 1);
      LastAxis(o, shape, idx);
    }
  }

  lemma LastAxis(o: Order, shape: seq<nat>, idx: seq<nat>)
    requires InBounds(shape, idx) && shape != []
    ensures var m := |shape| - 1;
            InBounds(shape[..m], idx[..m]) &&
            Rank(o, shape, idx) == Rank(o, shape[..m], idx[..m]) * (if o == C then shape[m] else 1)
                                   + idx[m] * Stride(o, shape, m)
  {
    var m := |shape| - 1;
    assert shape == shape[..m] + [shape[m]] && idx == idx[..m] + [idx[m]];
    if o == C {
      LastFastest(shape[..m], shape[m], idx[..m], idx[m]);
      assert shape[m + 1..] == [];
    } else {
      LastSlowest(shape[..m], shape[m], idx[..m], idx[m]);
    }
  }

  /** In F order the last axis runs slowest. */
  lemma LastSlowest(shape: seq<nat>, n: nat, idx: seq<nat>, i: nat)
    requires i < n && InBounds(shape, idx)
    ensures InBounds(shape + [n], idx + [i])
    ensures Rank(F, shape + [n], idx + [i]) == Rank(F, shape, idx) + i * Prod(shape)
  {
    ConsInBounds(n, shape, i, idx);
    ReverseSnoc(shape, n);
    ReverseSnoc(idx, i);
    RavelCons(n, Reverse(shape), i, Reverse(idx));
    ProdReverse(shape);
  }

  /** The last axis aside: in C order every stride loses the factor of the last extent, in F order nothing changes. */
  lemma {:induction false} OffsetPrefix(o: Order, shape: seq<nat>, idx: seq<nat>, n: nat)
    requires |idx| == |shape| && n < |shape|
    ensures var m := |shape| - 1;
            Offset(o, shape, idx, n) == Offset(o, shape[..m], idx[..m], n) * if o == C then shape[m] else 1
  {
    var m := |shape| - 1;
    if n == 0 {
    } else {
      OffsetPrefix(o, shape, idx, n - 1);
      var start := shape[..m];
      if o == C {
        assert shape[n..] == start[n..] + [shape[m]];
        ProdAppend(start[n..], [shape[m]]);
        assert Prod([shape[m]]) == shape[m] * Prod([shape[m]][1..]) && [shape[m]][1..] == [];
        StrideStep(Offset(C, start, idx[..m], n - 1), idx[n - 1], Prod(start[n..]), shape[m]);
      } else {
        assert shape[..n - 1] == start[..n - 1];
      }
    }
  }

  lemma StrideStep(before: nat, i: nat, q: nat, n: nat)
    ensures before * n + i * (q * n) == (before + i * q) * n
  {
    MulAssoc(i, q, n);
    Distribute(before, i * q, n);
  }

  lemma FlatReadAtRank<T>(o: Order, shape: seq<nat>, data: seq<T>, idx: seq<nat>)
    requires |data| == Prod(shape) && InBounds(shape, idx)
    ensures FlatRead(o, shape, data)[Rank(o, shape, idx)] == data[Ravel(shape, idx)]
  {
    PlaceOfRank(o, shape, idx);
  }

  /** Reading in an order lists the element at a multi-index at the sum of its entries times their strides. */
  lemma FlatReadAt<T>(o: Order, shape: seq<nat>, data: seq<T>, idx: seq<nat>)
    requires |data| == Prod(shape) && InBounds(shape, idx)
    ensures Offset(o, shape, idx, |shape|) < |data|
    ensures FlatRead(o, shape, data)[Offset(o, shape, idx, |shape|)] == data[Ravel(shape, idx)]
  {
    RankIsOffset(o, shape, idx);
    FlatReadAtRank(o, shape, data, idx);
  }

  // ----- when the two orders are the same -----

  /** No two axes with more than one position. */
  ghost predicate OneLongAxis(shape: seq<nat>) {
    forall i, j :: 0 <= i < j < |shape| ==> shape[i] <= 1 || shape[j] <= 1
  }

  lemma {:induction false} ProdAtLeast(s: seq<nat>, k: nat)
    requires k < |s| && forall i :: 0 <= i < |s| ==> s[i] > 0
    ensures Prod(s) >= s[k]
  {
    ProdPositive(s[1..]);
    if k == 0 {
      MulMono(1, Prod(s[1..]), s[0]);
    } else {
      ProdAtLeast(s[1..], k - 1);
      MulMono(1, s[0], Prod(s[1..]));
    }
  }

  /** With one long axis every stride that matters is 1. */
  lemma {:induction false} OneLongOffset(shape: seq<nat>, idx: seq<nat>, n: nat)
    requires InBounds(shape, idx) && n <= |shape| && OneLongAxis(shape)
    ensures Offset(F, shape, idx, n) == Offset(C, shape, idx, n)
  {
    if n == 0 {
    } else {
      OneLongOffset(shape, idx, n - 1);
      if shape[n - 1] > 1 {
        ProdOnes(shape[..n - 1]);
        ProdOnes(shape[n..]);
      } else {
        assert idx[n - 1] == 0;
      }
    }
  }

  /** The multi-index one step along axis j. */
  function Unit(n: nat, j: nat): (idx: seq<nat>)
    ensures |idx| == n && forall k :: 0 <= k < n ==> idx[k] == if k == j then 1 else 0
  {
    seq(n, k => if k == j then 1 else 0)
  }

  lemma {:induction false} UnitOffset(o: Order, shape: seq<nat>, j: nat, n: nat)
    requires n <= |shape|
    ensures Offset(o, shape, Unit(|shape|, j), n) == if j < n then Stride(o, shape, j) else 0
  {
    if n == 0 {
    } else {
      UnitOffset(o, shape, j, n - 1);
    }
  }

  lemma LastLongAxis(shape: seq<nat>, i: nat, j: nat) returns (i': nat, j': nat)
    requires i < j < |shape| && shape[i] > 1 && shape[j] > 1
    ensures i' < j' < |shape| && shape[i'] > 1 && shape[j'] > 1 && forall k :: j' < k < |shape| ==> shape[k] <= 1
    decreases |shape| - j
  {
    if k :| j < k < |shape| && shape[k] > 1 {
      i', j' := LastLongAxis(shape, i, k);
    } else {
      i', j' := i, j;
    }
  }

  /** A step along the last of two long axes goes to the next place in C order, but skips places in F order. */
  lemma TwoLongAxes(shape: seq<nat>) returns (idx: seq<nat>)
    requires !OneLongAxis(shape) && Prod(shape) > 0
    ensures InBounds(shape, idx) && Offset(F, shape, idx, |shape|) != Offset(C, shape, idx, |shape|)
  {
    forall k | 0 <= k < |shape|
      ensures shape[k] > 0
    {
      if shape[k] == 0 {
        ProdZero(shape, k);
      }
    }
    var i, j :| 0 <= i < j < |shape| && shape[i] > 1 && shape[j] > 1;
    i, j := LastLongAxis(shape, i, j);
    idx := Unit(|shape|, j);
    UnitOffset(F, shape, j, |shape|);
    UnitOffset(C, shape, j, |shape|);
    ProdAtLeast(shape[..j], i);
    ProdOnes(shape[j + 1..]);
  }

  /** Both orders place every element alike, if and only if there are no elements or no two long axes. */
  lemma OrdersAgreeIff(shape: seq<nat>)
    ensures (forall idx: seq<nat> :: InBounds(shape, idx) ==> Rank(F, shape, idx) == Rank(C, shape, idx))
            <==> Prod(shape) == 0 || OneLongAxis(shape)
  {
    if Prod(shape) == 0 || OneLongAxis(shape) {
      forall idx: seq<nat> | InBounds(shape, idx)
        ensures Rank(F, shape, idx) == Rank(C, shape, idx)
      {
        if OneLongAxis(shape) {
          OneLongOffset(shape, idx, |shape|);
          RankIsOffset(F, shape, idx);
          RankIsOffset(C, shape, idx);
        }
      }
    } else {
      var idx := TwoLongAxes(shape);
      RankIsOffset(F, shape, idx);
      RankIsOffset(C, shape, idx);
    }
  }

  /** reshape((-1,), order): row-major elements listed in the reading order. */
  function FlatRead<T>(o: Order, shape: seq<nat>, data: seq<T>): (flat: seq<T>)
    requires |data| == Prod(shape)
    ensures |flat| == |data|
  {
    seq(|data|, r requires 0 <= r < |data| => data[Ravel(shape, Place(o, shape, r))])
  }

  /** reshape(target, order): the reading order is filled from the reading order of the source. */
  function Reshaped<T>(o: Order, shape: seq<nat>, data: seq<T>, target: seq<nat>): (r: seq<T>)
    requires |data| == Prod(shape) == Prod(target)
    ensures |r| == |data|
  {
    var flat := FlatRead(o, shape, data);
    seq(|data|, k requires 0 <= k < |data| => flat[Rank(o, target, Unravel(target, k))])
  }

  /** Reshaping changes no reading: the flat order is inverse to the reshape. */
  lemma ReshapeKeepsReading<T>(o: Order, shape: seq<nat>, data: seq<T>, target: seq<nat>)
    requires |data| == Prod(shape) == Prod(target)
    ensures FlatRead(o, target, Reshaped(o, shape, data, target)) == FlatRead(o, shape, data)
  {
    var flat := FlatRead(o, shape, data);
    var back := FlatRead(o, target, Reshaped(o, shape, data, target));
    forall r | 0 <= r < |data|
      ensures back[r] == flat[r]
    {
      UnravelOfRavel(target, Place(o, target, r));
    }
  }

  /** Elements at the same place of the reading order are the same before and after a reshape. */
  lemma ReshapedAt<T>(o: Order, shape: seq<nat>, data: seq<T>, target: seq<nat>, moved: seq<T>,
                      idx: seq<nat>, idx': seq<nat>)
    requires |data| == Prod(shape) && |moved| == Prod(target) && InBounds(shape, idx) && InBounds(target, idx')
    requires FlatRead(o, target, moved) == FlatRead(o, shape, data)
    requires Offset(o, shape, idx, |shape|) == Offset(o, target, idx', |target|)
    ensures moved[Ravel(target, idx')] == data[Ravel(shape, idx)]
  {
    FlatReadAt(o, shape, data, idx);
    FlatReadAt(o, target, moved, idx');
  }

  lemma ReadOneAxis<T>(o: Order, data: seq<T>)
    ensures Prod([|data|]) == |data|
    ensures FlatRead(o, [|data|], data) == data
  {
    var shape: seq<nat> := [|data|];
    assert shape[1..] == [];
    forall r | 0 <= r < |data|
      ensures FlatRead(o, shape, data)[r] == data[r]
    {
      var idx := Place(o, shape, r);
      assert Reverse(shape) == shape && Reverse(idx) == idx;
    }
  }

  /** An element-wise reading of positions reads the elements at those positions. */
  lemma ReadThrough<T>(o: Order, shape: seq<nat>, cells: seq<nat>, items: seq<T>, data: seq<T>)
    requires |cells| == |data| == Prod(shape)
    requires forall k :: 0 <= k < |cells| ==> cells[k] < |items| && data[k] == items[cells[k]]
    ensures forall r :: 0 <= r < |cells| ==> FlatRead(o, shape, cells)[r] < |items|
    ensures forall r :: 0 <= r < |cells| ==> FlatRead(o, shape, data)[r] == items[FlatRead(o, shape, cells)[r]]
  {
  }
}
