/** When subscripting an iterator selects what subscripting its array would select. */
module Subselection {
  import opened Sequences
  import opened Wrappers
  import opened Arith
  import opened RowMajor
  import opened Selection
  import opened Subscript
  import opened Arrayterator

  /** Forward slices of an iterator over v, one for each axis. */
  ghost predicate Slices<T>(v: NdArray<T>, a: seq<int>, b: seq<int>, p: seq<int>, items: seq<IndexItem>) {
    && v.Valid() && Sliceable(v.shape, a, b, p) && |items| == |a| && AllForward(items)
    && forall k :: 0 <= k < |b| ==> 0 <= b[k] <= v.shape[k]
  }

  /** The array of the subscripted iterator. */
  ghost function IteratorSlice<T>(v: NdArray<T>, a: seq<int>, b: seq<int>, p: seq<int>, items: seq<IndexItem>)
    : (r: NdArray<T>)
    requires Slices(v, a, b, p, items)
  {
    SubselectionInside(v.shape, a, b, p, items);
    Slice(v, SubStarts(a, items), SubStops(a, b, items), SubSteps(p, items))
  }

  /** The subscripted array of the iterator. */
  ghost function ArraySlice<T>(v: NdArray<T>, a: seq<int>, b: seq<int>, p: seq<int>, items: seq<IndexItem>)
    : (r: NdArray<T>)
    requires Slices(v, a, b, p, items)
  {
    SliceableAgain(v, a, b, p, items);
    var whole := Slice(v, a, b, p);
    Slice(whole, Froms(items), Tos(items, whole.shape), Bys(items))
  }

  lemma SliceableAgain<T>(v: NdArray<T>, a: seq<int>, b: seq<int>, p: seq<int>, items: seq<IndexItem>)
    requires Slices(v, a, b, p, items)
    ensures AllRanges(items)
    ensures var whole := Slice(v, a, b, p);
            Sliceable(whole.shape, Froms(items), Tos(items, whole.shape), Bys(items))
  {
    forall k | 0 <= k < |items|
      ensures items[k].Range? && From(items[k]) >= 0 && By(items[k]) >= 1
    {
      assert Forward(items[k]);
    }
  }

  /** Every stored axis has the extent of its slice. */
  ghost predicate ExtentsKept(a: seq<int>, b: seq<int>, p: seq<int>, items: seq<IndexItem>)
    requires Vectors(a, b, p) && |items| == |a| && AllForward(items)
  {
    forall k :: 0 <= k < |items| ==> StoredLen(a[k], b[k], p[k], items[k]) == SlicedLen(a[k], b[k], p[k], items[k])
  }

  ghost predicate StartsKept(p: seq<int>, items: seq<IndexItem>)
    requires |p| == |items| && AllForward(items)
  {
    forall k :: 0 <= k < |items| ==> StartKept(p[k], items[k])
  }

  lemma SliceShapes<T>(v: NdArray<T>, a: seq<int>, b: seq<int>, p: seq<int>, items: seq<IndexItem>)
    requires Slices(v, a, b, p, items)
    ensures |IteratorSlice(v, a, b, p, items).shape| == |ArraySlice(v, a, b, p, items).shape| == |items|
    ensures forall k :: 0 <= k < |items| ==>
              IteratorSlice(v, a, b, p, items).shape[k] == StoredLen(a[k], b[k], p[k], items[k])
    ensures forall k :: 0 <= k < |items| ==>
              ArraySlice(v, a, b, p, items).shape[k] == SlicedLen(a[k], b[k], p[k], items[k])
  {
    SubselectionInside(v.shape, a, b, p, items);
    UnclippedStop(v.shape, b);
    UnclippedStop(v.shape, SubStops(a, b, items));
    var whole := Slice(v, a, b, p);
    UnclippedStop(whole.shape, Tos(items, whole.shape));
  }

  /** Where v is read for one index of the first array. */
  lemma IteratorReads<T>(v: NdArray<T>, a: seq<int>, b: seq<int>, p: seq<int>, items: seq<IndexItem>, idx: seq<nat>)
    returns (x: seq<nat>)
    requires Slices(v, a, b, p, items) && InBounds(IteratorSlice(v, a, b, p, items).shape, idx)
    ensures InBounds(v.shape, x) && IteratorSlice(v, a, b, p, items).At(idx) == v.At(x)
    ensures AllRanges(items) && |idx| == |items| && x == Point(SubStarts(a, items), SubSteps(p, items), idx)
  {
    SubselectionInside(v.shape, a, b, p, items);
    var start, stop, step := SubStarts(a, items), SubStops(a, b, items), SubSteps(p, items);
    SliceAt(v, start, stop, step, idx);
    x := PointAt(v.shape, start, stop, step, idx);
  }

  /** Where v is read for one index of the second array. */
  lemma ArrayReads<T>(v: NdArray<T>, a: seq<int>, b: seq<int>, p: seq<int>, items: seq<IndexItem>, idx: seq<nat>)
    returns (inner: seq<nat>, y: seq<nat>)
    requires Slices(v, a, b, p, items) && InBounds(ArraySlice(v, a, b, p, items).shape, idx)
    ensures InBounds(v.shape, y) && ArraySlice(v, a, b, p, items).At(idx) == v.At(y)
    ensures AllRanges(items) && |idx| == |inner| == |items|
    ensures inner == Point(Froms(items), Bys(items), idx) && y == Point(a, p, inner)
  {
    SliceableAgain(v, a, b, p, items);
    var whole := Slice(v, a, b, p);
    var start, stop, step := Froms(items), Tos(items, whole.shape), Bys(items);
    SliceAt(whole, start, stop, step, idx);
    inner := PointAt(whole.shape, start, stop, step, idx);
    SliceAt(v, a, b, p, inner);
    y := PointAt(v.shape, a, b, p, inner);
  }

  /** No two elements are equal, so that the elements tell the positions apart. */
  ghost predicate AllDifferent<T>(v: NdArray<T>) {
    forall i, j :: 0 <= i < j < |v.data| ==> v.data[i] != v.data[j]
  }

  /**
    Subscripting an iterator with any steps selects what subscripting its array selects, if and only
    if every extent comes out right and, unless nothing is selected, so does every start.
   */
  lemma SubscriptCommutes<T>(v: NdArray<T>, a: seq<int>, b: seq<int>, p: seq<int>, items: seq<IndexItem>)
    requires Slices(v, a, b, p, items)
    ensures var kept := ExtentsKept(a, b, p, items)
                        && (ArraySlice(v, a, b, p, items).data == [] || StartsKept(p, items));
            && (kept ==> IteratorSlice(v, a, b, p, items) == ArraySlice(v, a, b, p, items))
            && (AllDifferent(v) && IteratorSlice(v, a, b, p, items) == ArraySlice(v, a, b, p, items) ==> kept)
  {
    var sub, wanted := IteratorSlice(v, a, b, p, items), ArraySlice(v, a, b, p, items);
    SliceShapes(v, a, b, p, items);
    if ExtentsKept(a, b, p, items) {
      assert sub.shape == wanted.shape;
      if StartsKept(p, items) {
        SameReads(v, a, b, p, items);
      } else if wanted.data == [] {
        assert sub.data == [];
      } else if AllDifferent(v) {
        DifferentReads(v, a, b, p, items);
      }
    } else {
      assert sub.shape != wanted.shape;
    }
  }

  /** If all starts are kept, both ways lead to the same position; otherwise the first positions differ. */
  lemma PointsMeet(a: seq<int>, p: seq<int>, items: seq<IndexItem>, idx: seq<nat>, inner: seq<nat>)
    requires |a| == |p| == |items| == |idx| == |inner| && AllForward(items) && AllRanges(items)
    requires (forall k :: 0 <= k < |p| ==> p[k] >= 1) && StartsKept(p, items)
    requires inner == Point(Froms(items), Bys(items), idx)
    ensures Point(SubStarts(a, items), SubSteps(p, items), idx) == Point(a, p, inner)
  {
    forall k | 0 <= k < |items|
      ensures Point(SubStarts(a, items), SubSteps(p, items), idx)[k] == Point(a, p, inner)[k]
    {
      assert Forward(items[k]) && StartKept(p[k], items[k]);
      SlicePoint(a[k], p[k], items[k], idx[k]);
    }
  }

  lemma PointsPart(a: seq<int>, p: seq<int>, items: seq<IndexItem>, idx: seq<nat>, inner: seq<nat>)
    requires |a| == |p| == |items| == |idx| == |inner| && AllForward(items) && AllRanges(items)
    requires (forall k :: 0 <= k < |p| ==> p[k] >= 1) && !StartsKept(p, items)
    requires inner == Point(Froms(items), Bys(items), idx) && forall k :: 0 <= k < |idx| ==> idx[k] == 0
    ensures Point(SubStarts(a, items), SubSteps(p, items), idx) != Point(a, p, inner)
  {
    var k :| 0 <= k < |items| && !StartKept(p[k], items[k]);
    assert Forward(items[k]);
    SlicePoint(a[k], p[k], items[k], 0);
    assert Point(SubStarts(a, items), SubSteps(p, items), idx)[k] != Point(a, p, inner)[k];
  }

  lemma SameReads<T>(v: NdArray<T>, a: seq<int>, b: seq<int>, p: seq<int>, items: seq<IndexItem>)
    requires Slices(v, a, b, p, items) && ExtentsKept(a, b, p, items) && StartsKept(p, items)
    ensures IteratorSlice(v, a, b, p, items) == ArraySlice(v, a, b, p, items)
  {
    var sub, wanted := IteratorSlice(v, a, b, p, items), ArraySlice(v, a, b, p, items);
    SliceShapes(v, a, b, p, items);
    assert sub.shape == wanted.shape;
    forall idx: seq<nat> | InBounds(sub.shape, idx)
      ensures sub.At(idx) == wanted.At(idx)
    {
      var x := IteratorReads(v, a, b, p, items, idx);
      var inner, y := ArrayReads(v, a, b, p, items, idx);
      PointsMeet(a, p, items, idx, inner);
      assert x == y;
    }
    Extensional(sub, wanted);
  }

  /** A start that is not kept shows in the first element. */
  lemma DifferentReads<T>(v: NdArray<T>, a: seq<int>, b: seq<int>, p: seq<int>, items: seq<IndexItem>)
    requires Slices(v, a, b, p, items)
    ensures ExtentsKept(a, b, p, items) && !StartsKept(p, items)
            && AllDifferent(v) && ArraySlice(v, a, b, p, items).data != [] ==>
              IteratorSlice(v, a, b, p, items) != ArraySlice(v, a, b, p, items)
  {
    if ExtentsKept(a, b, p, items) && !StartsKept(p, items)
       && AllDifferent(v) && ArraySlice(v, a, b, p, items).data != []
    {
      SliceShapes(v, a, b, p, items);
      assert IteratorSlice(v, a, b, p, items).shape == ArraySlice(v, a, b, p, items).shape;
      var shape := ArraySlice(v, a, b, p, items).shape;
      var first: seq<nat> := Repeat(0, |shape|);
      ZerosInBounds(shape, first);
      var x := IteratorReads(v, a, b, p, items, first);
      var inner, y := ArrayReads(v, a, b, p, items, first);
      PointsPart(a, p, items, first, inner);
      DifferentAt(v, x, y);
    }
  }

  lemma ZerosInBounds(shape: seq<nat>, zeros: seq<nat>)
    requires Prod(shape) > 0 && |zeros| == |shape| && forall k :: 0 <= k < |zeros| ==> zeros[k] == 0
    ensures InBounds(shape, zeros)
  {
    forall k | 0 <= k < |shape|
      ensures zeros[k] < shape[k]
    {
      if shape[k] == 0 {
        ProdZero(shape, k);
      }
    }
  }

  lemma DifferentAt<T>(v: NdArray<T>, x: seq<nat>, y: seq<nat>)
    requires v.Valid() && AllDifferent(v) && InBounds(v.shape, x) && InBounds(v.shape, y) && x != y
    ensures v.At(x) != v.At(y)
  {
    UnravelOfRavel(v.shape, x);
    UnravelOfRavel(v.shape, y);
  }

  /** The slice stops at 0 on an axis where it should select nothing but the stored axis selects something. */
  ghost predicate StopsAtZero(item: IndexItem, n: nat)
    requires item.Range?
  {
    item.stop == Some(0) && From(item) < n
  }

  /** If all steps are 1, that is: if and only if no slice stops at 0 on an axis where this would cut something off. */
  lemma UnitStepsCommute<T>(v: NdArray<T>, a: seq<int>, b: seq<int>, p: seq<int>, items: seq<IndexItem>)
    requires Slices(v, a, b, p, items) && forall k :: 0 <= k < |p| ==> p[k] == 1
    ensures AllRanges(items) && |Slice(v, a, b, p).shape| == |items|
    ensures IteratorSlice(v, a, b, p, items) == ArraySlice(v, a, b, p, items)
       <==> forall k :: 0 <= k < |items| ==> !StopsAtZero(items[k], Slice(v, a, b, p).shape[k])
  {
    var d := Slice(v, a, b, p).shape;
    UnclippedStop(v.shape, b);
    SliceableAgain(v, a, b, p, items);
    SliceShapes(v, a, b, p, items);
    forall k | 0 <= k < |items|
      ensures StoredLen(a[k], b[k], p[k], items[k]) != SlicedLen(a[k], b[k], p[k], items[k])
         <==> StopsAtZero(items[k], d[k])
    {
      assert Forward(items[k]);
      UnitStepExtent(a[k], b[k], items[k]);
    }
    if ExtentsKept(a, b, p, items) {
      SubscriptCommutes(v, a, b, p, items);
    }
  }

  /** Over three elements a slice that stops at 0 selects all of them. */
  lemma StopAtZeroIgnored(v: NdArray<int>)
    requires v == NdArray([3], [10, 20, 30])
    ensures v.Valid()
    ensures Slices(v, [0], [3], [1], [Range(None, Some(0), None)])
    ensures IteratorSlice(v, [0], [3], [1], [Range(None, Some(0), None)]).shape == [3]
    ensures ArraySlice(v, [0], [3], [1], [Range(None, Some(0), None)]).shape == [0]
  {
    assert v.Valid();
    SliceShapes(v, [0], [3], [1], [Range(None, Some(0), None)]);
    AxisLenUnit(0, 3);
    AxisLenUnit(0, 0);
  }
}
