/** Subscripting a block iterator: how an index is completed, and what one slice does to one axis. */
module Subscript {
  import opened Sequences
  import opened Wrappers
  import opened Arith
  import opened Selection

  /** One subscript item: an ellipsis, an integer or a slice with optional parts. */
  datatype IndexItem =
    | Ellipsis
    | Position(i: int)
    | Range(start: Option<int>, stop: Option<int>, step: Option<int>)

  const EVERYTHING: IndexItem := Range(None, None, None)

  /** Python's `x or default`: both a missing value and zero take the default. */
  function Or(x: Option<int>, default: int): int {
    if x.Some? && x.value != 0 then x.value else default
  }

  function AsRange(item: IndexItem): (r: IndexItem) {
    if item.Position? then Range(Some(item.i), Some(item.i + 1), Some(1)) else item
  }

  function AsRanges(items: seq<IndexItem>): (r: seq<IndexItem>)
    ensures |r| == |items| && forall k :: 0 <= k < |items| ==> r[k] == AsRange(items[k])
  {
    seq(|items|, k requires 0 <= k < |items| => AsRange(items[k]))
  }

  ghost predicate NoEllipsis(items: seq<IndexItem>) {
    forall k :: 0 <= k < |items| ==> !items[k].Ellipsis?
  }

  ghost predicate AllRanges(items: seq<IndexItem>) {
    forall k :: 0 <= k < |items| ==> items[k].Range?
  }

  /** The items fixed so far and the length the next ellipsis is measured against. */
  ghost function Fix(index: seq<IndexItem>, dims: nat): (r: (seq<IndexItem>, nat))
    ensures AllRanges(r.0)
  {
    FixPrefix(index, dims, |index|)
  }

  ghost function FixPrefix(index: seq<IndexItem>, dims: nat, n: nat): (r: (seq<IndexItem>, nat))
    requires n <= |index|
    ensures AllRanges(r.0)
  {
    if n == 0 then ([], |index|)
    else
      var (fixed, length) := FixPrefix(index, dims, n - 1);
      if index[n - 1].Ellipsis? then
        var filled := fixed + Repeat(EVERYTHING, dims - length + 1);
        (filled, |filled|)
      else (fixed + [AsRange(index[n - 1])], length)
  }

  /** The completed index: short ones are padded with full slices. */
  ghost function Completed(index: seq<IndexItem>, dims: nat): (r: seq<IndexItem>)
    ensures AllRanges(r) && |r| >= dims
  {
    var fixed := Fix(index, dims).0;
    fixed + Repeat(EVERYTHING, dims - |fixed|)
  }

  method Complete(index: seq<IndexItem>, dims: nat) returns (fixed: seq<IndexItem>)
    ensures fixed == Completed(index, dims)
  {
    fixed := [];
    var length := |index|;
    for n := 0 to |index|
      invariant (fixed, length) == FixPrefix(index, dims, n)
    {
      match index[n]
      case Ellipsis =>
        fixed := fixed + Repeat(EVERYTHING, dims - length + 1);
        length := |fixed|;
      case Position(i) => fixed := fixed + [Range(Some(i), Some(i + 1), Some(1))];
      case Range(_, _, _) => fixed := fixed + [index[n]];
    }
    fixed := fixed + Repeat(EVERYTHING, dims - |fixed|);
  }

  lemma {:induction false} FixPlain(index: seq<IndexItem>, dims: nat, n: nat)
    requires n <= |index| && NoEllipsis(index[..n])
    ensures FixPrefix(index, dims, n) == (AsRanges(index[..n]), |index|)
  {
    if n == 0 {
    } else {
      assert index[..n - 1] == index[..n][..n - 1];
      FixPlain(index, dims, n - 1);
      assert index[n - 1] == index[..n][n - 1];
      assert AsRanges(index[..n]) == AsRanges(index[..n - 1]) + [AsRange(index[n - 1])];
    }
  }

  lemma {:induction false} FixAfterEllipsis(index: seq<IndexItem>, dims: nat, e: nat, n: nat)
    requires e < n <= |index| && index[e].Ellipsis?
    requires NoEllipsis(index[..e]) && NoEllipsis(index[e + 1..])
    ensures FixPrefix(index, dims, n).0 ==
            AsRanges(index[..e]) + Repeat(EVERYTHING, dims - |index| + 1) + AsRanges(index[e + 1..n])
    decreases n
  {
    if n == e + 1 {
      FixPlain(index, dims, e);
    } else {
      FixAfterEllipsis(index, dims, e, n - 1);
      assert index[n - 1] == index[e + 1..][n - 2 - e];
      assert AsRanges(index[e + 1..n]) == AsRanges(index[e + 1..n - 1]) + [AsRange(index[n - 1])];
    }
  }

  /** One ellipsis aligns the items before it with the first axes and those after it with the last axes. */
  lemma EllipsisFills(index: seq<IndexItem>, dims: nat, e: nat)
    requires e < |index| <= dims + 1 && index[e].Ellipsis?
    requires NoEllipsis(index[..e]) && NoEllipsis(index[e + 1..])
    ensures var r := Completed(index, dims);
            && |r| == dims
            && (forall k :: 0 <= k < e ==> r[k] == AsRange(index[k]))
            && (forall k :: dims - (|index| - e - 1) <= k < dims ==> r[k] == AsRange(index[k - dims + |index|]))
            && (forall k :: e <= k < dims - (|index| - e - 1) ==> r[k] == EVERYTHING)
  {
    FixAfterEllipsis(index, dims, e, |index|);
    assert index[e + 1..|index|] == index[e + 1..];
    var r := Completed(index, dims);
    forall k | dims - (|index| - e - 1) <= k < dims
      ensures r[k] == AsRange(index[k - dims + |index|])
    {
      assert index[e + 1..][k - dims + |index| - e - 1] == index[k - dims + |index|];
    }
  }

  /** Without an ellipsis the items belong to the first axes, and the other axes are kept whole. */
  lemma PlainFills(index: seq<IndexItem>, dims: nat)
    requires NoEllipsis(index)
    ensures var r := Completed(index, dims);
            && |r| == Max(dims, |index|)
            && (forall k :: 0 <= k < |index| && index[k].Range? ==> r[k] == index[k])
            && (forall k :: 0 <= k < |index| && index[k].Position? ==>
                  r[k] == Range(Some(index[k].i), Some(index[k].i + 1), Some(1)))
            && (forall k :: |index| <= k < dims ==> r[k] == Range(None, None, None))
  {
    assert index[..|index|] == index;
    FixPlain(index, dims, |index|);
  }

  // ----- one slice on one axis -----

  /** The axis (start, stop, step) that __getitem__ stores for a slice of the axis (a, b, p). */
  function SubStart(a: int, item: IndexItem): int
    requires item.Range?
  {
    a + Or(item.start, 0)
  }

  function SubStep(p: int, item: IndexItem): int
    requires item.Range?
  {
    p * Or(item.step, 1)
  }

  function SubStop(a: int, b: int, item: IndexItem): int
    requires item.Range?
  {
    Min(b, a + Or(item.stop, b - a))
  }

  /** The slice runs forward from a position that is not negative. */
  ghost predicate Forward(item: IndexItem) {
    && item.Range?
    && (item.start.Some? ==> item.start.value >= 0)
    && (item.stop.Some? ==> item.stop.value >= 0)
    && (item.step.Some? ==> item.step.value >= 1)
  }

  /** The slice as numpy reads it on an axis of n positions. */
  function From(item: IndexItem): int
    requires item.Range?
  {
    if item.start.Some? then item.start.value else 0
  }

  function To(item: IndexItem, n: nat): int
    requires item.Range?
  {
    if item.stop.Some? then Min(n, item.stop.value) else n
  }

  function By(item: IndexItem): int
    requires item.Range?
  {
    if item.step.Some? then item.step.value else 1
  }

  /** The positions an axis (a, b, p) selects. */
  ghost function Positions(a: int, b: int, p: int): (r: seq<int>)
    requires p >= 1
    ensures |r| == AxisLen(a, b, p)
  {
    seq(AxisLen(a, b, p), i requires 0 <= i < AxisLen(a, b, p) => a + i * p)
  }

  /** What slicing those positions should give. */
  ghost function Sliced(a: int, b: int, p: int, item: IndexItem): (r: seq<int>)
    requires p >= 1 && Forward(item)
  {
    var len := AxisLen(From(item), To(item, AxisLen(a, b, p)), By(item));
    seq(len, i requires 0 <= i < len => a + (From(item) + i * By(item)) * p)
  }

  ghost function Stored(a: int, b: int, p: int, item: IndexItem): (r: seq<int>)
    requires p >= 1 && Forward(item)
  {
    MulPositive(p, By(item));
    Positions(SubStart(a, item), SubStop(a, b, item), SubStep(p, item))
  }

  /**
    Position j of an axis is selected exactly if it is not before the start, lies before the stop
    and a whole number of steps after the start.
   */
  lemma SlicedMember(a: int, b: int, p: int, start: Option<int>, stop: Option<int>, step: Option<int>, j: nat)
    requires p >= 1 && Forward(Range(start, stop, step)) && j < AxisLen(a, b, p)
    ensures a + j * p in Sliced(a, b, p, Range(start, stop, step)) <==>
            && (start.Some? ==> start.value <= j)
            && (stop.Some? ==> j < stop.value)
            && (step.Some? ==> (j - if start.Some? then start.value else 0) % step.value == 0)
  {
    var item := Range(start, stop, step);
    var s, q, n := From(item), By(item), To(item, AxisLen(a, b, p));
    var sliced := Sliced(a, b, p, item);
    if a + j * p in sliced {
      var i :| 0 <= i < |sliced| && sliced[i] == a + j * p;
      SameFactor(s + i * q, j, p);
      AxisLenIsCount(s, n, q, i);
      MulMono(0, i, q);
      DivModUnique(j - s, i, 0, q);
    }
    if s <= j < n && (j - s) % q == 0 {
      var i := (j - s) / q;
      DivModDef(j - s, q);
      DivBound(j - s, q, 0);
      AxisLenIsCount(s, n, q, i);
      assert sliced[i] == a + j * p;
    }
  }

  lemma SameFactor(x: int, y: int, p: int)
    requires p >= 1 && x * p == y * p
    ensures x == y
  {
    if x < y {
      MulLeSuccessor(x, y, p);
    } else if y < x {
      MulLeSuccessor(y, x, p);
    }
  }

  /** The selected positions are positions of the axis, in increasing order. */
  lemma SlicedOrdered(a: int, b: int, p: int, item: IndexItem, i: nat, k: nat)
    requires p >= 1 && Forward(item) && i < k < |Sliced(a, b, p, item)|
    ensures a <= Sliced(a, b, p, item)[i] < Sliced(a, b, p, item)[k] < b
  {
    var s, q := From(item), By(item);
    MulMono(0, i, q);
    MulLeSuccessor(i, k, q);
    AxisLenIsCount(s, To(item, AxisLen(a, b, p)), q, k);
    MulMono(0, s + i * q, p);
    MulLeSuccessor(s + i * q, s + k * q, p);
    AxisLenIsCount(a, b, p, s + k * q);
  }

  /** An integer selects the position of that number alone, if there is one. */
  lemma PositionAlone(a: int, b: int, p: int, i: nat)
    requires p >= 1
    ensures Sliced(a, b, p, AsRange(Position(i))) == if i < AxisLen(a, b, p) then [a + i * p] else []
  {
    AxisLenStep(i, To(AsRange(Position(i)), AxisLen(a, b, p)), 1);
  }

  /** The slice without start, stop and step selects every position. */
  lemma EverythingKept(a: int, b: int, p: int)
    requires p >= 1
    ensures Sliced(a, b, p, EVERYTHING) == Stored(a, b, p, EVERYTHING) == Positions(a, b, p)
  {
    AxisLenUnit(0, AxisLen(a, b, p));
  }

  lemma AxisLenUnit(a: int, b: int)
    ensures AxisLen(a, b, 1) == if b <= a then 0 else b - a
  {
    AxisLenIsCount(a, b, 1, AxisLen(a, b, 1));
    if b > a {
      AxisLenIsCount(a, b, 1, b - a - 1);
    }
  }

  lemma AxisLenShift(a: int, b: int, p: int, d: int)
    requires p >= 1
    ensures AxisLen(a + d, b + d, p) == AxisLen(a, b, p)
  {
  }

  /**
    On an axis with step 1 the stored axis has the extent of the slice unless the slice stops
    at 0: then the stop is taken for a missing one.
   */
  lemma UnitStepExtent(a: int, b: int, item: IndexItem)
    requires Forward(item)
    ensures var n := AxisLen(a, b, 1);
            var stored := AxisLen(SubStart(a, item), SubStop(a, b, item), SubStep(1, item));
            var wanted := AxisLen(From(item), To(item, n), By(item));
            if item.stop == Some(0) && From(item) < n then stored > wanted == 0 else stored == wanted
  {
    var n := AxisLen(a, b, 1);
    AxisLenUnit(a, b);
    var q := By(item);
    if item.stop == Some(0) {
      AxisLenIsCount(a + From(item), b, q, 0);
    } else if b <= a {
    } else {
      AxisLenShift(From(item), To(item, n), q, a);
    }
  }

  /** The extent of the stored axis, and the extent the slice should have. */
  ghost function StoredLen(a: int, b: int, p: int, item: IndexItem): nat
    requires p >= 1 && Forward(item)
  {
    MulPositive(p, By(item));
    AxisLen(SubStart(a, item), SubStop(a, b, item), SubStep(p, item))
  }

  ghost function SlicedLen(a: int, b: int, p: int, item: IndexItem): nat
    requires p >= 1 && Forward(item)
  {
    AxisLen(From(item), To(item, AxisLen(a, b, p)), By(item))
  }

  /** The start is not scaled by the step of the axis; this does no harm at 0 and for step 1. */
  predicate StartKept(p: int, item: IndexItem)
    requires item.Range?
  {
    From(item) == 0 || p == 1
  }

  lemma SlicePoint(a: int, p: int, item: IndexItem, i: nat)
    requires p >= 1 && Forward(item)
    ensures StartKept(p, item) ==> SubStart(a, item) + i * SubStep(p, item) == a + (From(item) + i * By(item)) * p
    ensures !StartKept(p, item) ==> SubStart(a, item) != a + From(item) * p
  {
    MulAssoc(i, By(item), p);
    if !StartKept(p, item) {
      MulLess(From(item), p);
    }
  }

  lemma MulLess(x: int, p: int)
    requires x >= 1 && p >= 2
    ensures x < x * p
  {
  }

  /** One slice is stored correctly exactly if the extent comes out right and, unless it is empty, the start does. */
  lemma SliceStoredIff(a: int, b: int, p: int, item: IndexItem)
    requires p >= 1 && Forward(item)
    ensures Stored(a, b, p, item) == Sliced(a, b, p, item)
       <==> StoredLen(a, b, p, item) == SlicedLen(a, b, p, item)
            && (SlicedLen(a, b, p, item) == 0 || StartKept(p, item))
  {
    var stored, sliced := Stored(a, b, p, item), Sliced(a, b, p, item);
    SlicePoint(a, p, item, 0);
    if StartKept(p, item) && |stored| == |sliced| {
      forall i | 0 <= i < |stored|
        ensures stored[i] == sliced[i]
      {
        SlicePoint(a, p, item, i);
      }
    }
    if |stored| == |sliced| > 0 && stored == sliced {
      assert stored[0] == sliced[0] == a + From(item) * p;
    }
  }

  /** Of every second one of four positions, every third is stored correctly; all but the first, or none, is not. */
  lemma SteppedAxis()
    ensures Stored(0, 4, 2, Range(None, None, Some(3))) == Sliced(0, 4, 2, Range(None, None, Some(3))) == [0]
    ensures Stored(0, 4, 2, Range(Some(1), None, None)) == [1, 3] && Sliced(0, 4, 2, Range(Some(1), None, None)) == [2]
    ensures Stored(0, 4, 2, Range(None, Some(0), None)) == [0, 2] && Sliced(0, 4, 2, Range(None, Some(0), None)) == []
  {
    AxisLens();
    assert Stored(0, 4, 2, Range(None, None, Some(3))) == [0];
    assert Sliced(0, 4, 2, Range(None, None, Some(3))) == [0];
    assert Stored(0, 4, 2, Range(Some(1), None, None)) == [1, 3];
    assert Sliced(0, 4, 2, Range(Some(1), None, None)) == [2];
    assert Stored(0, 4, 2, Range(None, Some(0), None)) == [0, 2];
  }

  lemma AxisLens()
    ensures AxisLen(0, 4, 2) == 2 && AxisLen(0, 4, 6) == 1 && AxisLen(1, 4, 2) == 2
    ensures AxisLen(0, 2, 3) == 1 && AxisLen(1, 2, 1) == 1 && AxisLen(0, 0, 1) == 0
  {
  }

  /** All forward slices not stopping at 0 are stored correctly exactly on axes with step 1 or at most one position. */
  lemma SlicingIsSoundIff(a: int, b: int, p: int)
    requires p >= 1
    ensures (forall item :: Forward(item) && item.stop != Some(0) ==> Stored(a, b, p, item) == Sliced(a, b, p, item))
       <==> (p == 1 || b - a <= 1)
  {
    if p == 1 || b - a <= 1 {
      forall item | Forward(item) && item.stop != Some(0)
        ensures Stored(a, b, p, item) == Sliced(a, b, p, item)
      {
        if p == 1 {
          UnitStepExtent(a, b, item);
        } else {
          ShortAxis(a, b, p, item);
        }
      }
    } else {
      var item := Range(Some(1), None, None);
      AxisLenIsCount(a + 1, b, p, 0);
      assert Stored(a, b, p, item)[0] == a + 1;
      if Sliced(a, b, p, item) != [] {
        assert Sliced(a, b, p, item)[0] == a + (1 + 0 * 1) * p == a + p;
      }
      assert Stored(a, b, p, item) != Sliced(a, b, p, item);
    }
  }

  lemma ShortAxis(a: int, b: int, p: int, item: IndexItem)
    requires p >= 1 && b - a <= 1 && Forward(item) && item.stop != Some(0)
    ensures Stored(a, b, p, item) == Sliced(a, b, p, item)
  {
    var n := AxisLen(a, b, p);
    AxisLenStep(a, b, p);
    assert n == if a < b then 1 else 0;
    MulPositive(p, By(item));
    AxisLenStep(SubStart(a, item), SubStop(a, b, item), SubStep(p, item));
    AxisLenStep(From(item), To(item, n), By(item));
    if a < b && From(item) == 0 {
      assert Stored(a, b, p, item) == [a];
      assert Sliced(a, b, p, item) == [a];
    }
  }
}
