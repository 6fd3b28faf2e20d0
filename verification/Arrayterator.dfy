/** The buffered block iterator over a strided selection of an n-dimensional array. */
module Arrayterator {
  import opened Sequences
  import opened Wrappers
  import opened Arith
  import opened RowMajor
  import opened Selection
  import opened Odometer
  import opened Subscript

  // ----- basic slicing of the wrapped array -----

  function Clip(stop: seq<int>, shape: seq<nat>): (r: seq<int>)
    requires |stop| == |shape|
    ensures |r| == |stop|
  {
    seq(|stop|, k requires 0 <= k < |stop| => Min(stop[k], shape[k]))
  }

  ghost predicate Sliceable(shape: seq<nat>, a: seq<int>, b: seq<int>, p: seq<int>) {
    && Vectors(a, b, p) && |a| == |shape|
    && forall k :: 0 <= k < |a| ==> a[k] >= 0
  }

  function AsIndex(x: seq<int>): (idx: seq<nat>)
    requires forall k :: 0 <= k < |x| ==> x[k] >= 0
    ensures |idx| == |x| && forall k :: 0 <= k < |x| ==> idx[k] == x[k]
  {
    seq(|x|, k requires 0 <= k < |x| => x[k])
  }

  ghost predicate Inside(shape: seq<nat>, x: seq<int>) {
    |x| == |shape| && forall k :: 0 <= k < |x| ==> 0 <= x[k] < shape[k]
  }

  lemma {:induction false} PointInside(shape: seq<nat>, a: seq<int>, b: seq<int>, p: seq<int>, idx: seq<nat>)
    requires Sliceable(shape, a, b, p)
    requires InBounds(Extents(a, Clip(b, shape), p), idx)
    ensures Inside(shape, Point(a, p, idx))
  {
    var x := Point(a, p, idx);
    forall k | 0 <= k < |x|
      ensures 0 <= x[k] < shape[k]
    {
      AxisLenIsCount(a[k], Clip(b, shape)[k], p[k], idx[k]);
      MulMono(0, idx[k], p[k]);
    }
  }

  function PointAt(shape: seq<nat>, a: seq<int>, b: seq<int>, p: seq<int>, idx: seq<nat>): (x: seq<nat>)
    requires Sliceable(shape, a, b, p)
    requires InBounds(Extents(a, Clip(b, shape), p), idx)
    ensures InBounds(shape, x)
    ensures x == Point(a, p, idx)
  {
    PointInside(shape, a, b, p, idx);
    AsIndex(Point(a, p, idx))
  }

  /** var[start:stop:step] with one slice per axis, starts not negative, steps positive. */
  function Slice<T>(v: NdArray<T>, a: seq<int>, b: seq<int>, p: seq<int>): (r: NdArray<T>)
    requires v.Valid() && Sliceable(v.shape, a, b, p)
    ensures r.Valid() && r.shape == Extents(a, Clip(b, v.shape), p)
  {
    var d := Extents(a, Clip(b, v.shape), p);
    NdArray(d, seq(Prod(d), r requires 0 <= r < Prod(d) => v.At(PointAt(v.shape, a, b, p, Unravel(d, r)))))
  }

  lemma {:induction false} SliceAt<T>(v: NdArray<T>, a: seq<int>, b: seq<int>, p: seq<int>, idx: seq<nat>)
    requires v.Valid() && Sliceable(v.shape, a, b, p)
    requires InBounds(Extents(a, Clip(b, v.shape), p), idx)
    ensures Slice(v, a, b, p).At(idx) == v.At(PointAt(v.shape, a, b, p, idx))
  {
    UnravelOfRavel(Extents(a, Clip(b, v.shape), p), idx);
  }

  ghost predicate AllInside(shape: seq<nat>, rows: seq<seq<int>>) {
    forall i :: 0 <= i < |rows| ==> Inside(shape, rows[i])
  }

  ghost function Element<T>(v: NdArray<T>, x: seq<int>): T
    requires v.Valid() && Inside(v.shape, x)
  {
    v.At(AsIndex(x))
  }

  /** The elements found at a list of positions. */
  ghost function Gather<T>(v: NdArray<T>, rows: seq<seq<int>>): (r: seq<T>)
    requires v.Valid() && AllInside(v.shape, rows)
    ensures |r| == |rows|
  {
    seq(|rows|, i requires 0 <= i < |rows| => Element(v, rows[i]))
  }

  lemma GatherConcat<T>(v: NdArray<T>, s: seq<seq<int>>, t: seq<seq<int>>)
    requires v.Valid() && AllInside(v.shape, s + t)
    ensures AllInside(v.shape, s) && AllInside(v.shape, t)
    ensures Gather(v, s + t) == Gather(v, s) + Gather(v, t)
  {
    assert forall i :: 0 <= i < |s| ==> s[i] == (s + t)[i];
    assert forall i :: 0 <= i < |t| ==> t[i] == (s + t)[|s| + i];
  }

  /** Reading a slice row-major visits exactly the positions of Grid, in that order. */
  lemma {:induction false} SliceReadsGrid<T>(v: NdArray<T>, a: seq<int>, b: seq<int>, p: seq<int>)
    requires v.Valid() && Sliceable(v.shape, a, b, p)
    ensures var rows := Grid(a, Clip(b, v.shape), p);
            && AllInside(v.shape, rows)
            && Slice(v, a, b, p).data == Gather(v, rows)
  {
    var c := Clip(b, v.shape);
    var d := Extents(a, c, p);
    var rows := Grid(a, c, p);
    GridSize(a, c, p);
    forall i | 0 <= i < |rows|
      ensures Inside(v.shape, rows[i])
      ensures Slice(v, a, b, p).data[i] == Element(v, rows[i])
    {
      var idx := Unravel(d, i);
      GridAt(a, c, p, idx);
      PointInside(v.shape, a, b, p, idx);
      assert AsIndex(rows[i]) == PointAt(v.shape, a, b, p, idx);
    }
  }

  function Concat<T>(blocks: seq<NdArray<T>>): (r: seq<T>) {
    if blocks == [] then [] else Concat(blocks[..|blocks| - 1]) + blocks[|blocks| - 1].data
  }

  /** The elements of the blocks, one block after the other. */
  lemma {:induction false} ConcatMeans<T>(s: seq<NdArray<T>>, t: seq<NdArray<T>>, block: NdArray<T>)
    ensures Concat([block]) == block.data
    ensures Concat(s + t) == Concat(s) + Concat(t)
  {
    assert [block][..0] == [];
    assert Concat([block]) == Concat([block][..0]) + block.data;
    if t == [] {
      assert s + t == s;
    } else {
      var m := |t| - 1;
      ConcatMeans(s, t[..m], block);
      assert (s + t)[..|s + t| - 1] == s + t[..m];
      Assoc(Concat(s), Concat(t[..m]), t[m].data);
    }
  }

  // ----- the iterator object -----

  /** How iteration ended: normally, or with the exception a 0-d array raises. */
  datatype Outcome = Finished | TypeError | IndexError

  /** The extent the iterator reports for one axis; not positive when the axis selects nothing. */
  function ExtentOf(a: int, b: int, p: int): (n: int)
    requires p >= 1
    ensures AxisLen(a, b, p) == if n > 0 then n else 0
  {
    DivBound(b - a - 1, p, 0);
    (b - a - 1) / p + 1
  }

  function ShapeOf(a: seq<int>, b: seq<int>, p: seq<int>): (d: seq<int>)
    requires |a| == |b| == |p| && Steps(p)
    ensures |d| == |a|
    ensures forall k :: 0 <= k < |a| ==> d[k] == ExtentOf(a[k], b[k], p[k])
  {
    seq(|a|, k requires 0 <= k < |a| => ExtentOf(a[k], b[k], p[k]))
  }

  class Arrayterator<T> {
    const source: NdArray<T>
    const bufSize: Option<nat>
    var start: seq<int>
    var stop: seq<int>
    var step: seq<int>

    /** The selection lies inside the array and runs forward. */
    ghost predicate Valid()
      reads this
    {
      && source.Valid()
      && Sliceable(source.shape, start, stop, step)
      && forall k :: 0 <= k < |stop| ==> 0 <= stop[k] <= source.shape[k]
    }

    constructor (source: NdArray<T>, bufSize: Option<nat>)
      requires source.Valid()
      ensures Valid() && this.source == source && this.bufSize == bufSize
      ensures |start| == |source.shape|
      ensures forall k :: 0 <= k < |source.shape| ==> start[k] == 0 && stop[k] == source.shape[k] && step[k] == 1
    {
      this.source := source;
      this.bufSize := bufSize;
      start := seq(|source.shape|, _ => 0);
      stop := source.shape;
      step := seq(|source.shape|, _ => 1);
    }

    /**
      __getitem__: a new iterator over the same array, one slice per axis. Items beyond the
      last axis are ignored. For forward slices the new selection is again inside the array.
     */
    method GetItem(index: seq<IndexItem>) returns (out: Arrayterator<T>)
      requires Valid()
      ensures fresh(out) && out.source == source && out.bufSize == bufSize
      ensures var items := Completed(index, |start|)[..|start|];
              && out.start == SubStarts(start, items)
              && out.stop == SubStops(start, stop, items)
              && out.step == SubSteps(step, items)
              && (AllForward(items) ==> out.Valid())
    {
      var fixed := Complete(index, |source.shape|);
      ghost var items := fixed[..|start|];
      out := new Arrayterator(source, bufSize);
      for i := 0 to |start|
        invariant fresh(out) && |out.start| == |out.stop| == |out.step| == |start|
        invariant forall k :: 0 <= k < i ==> out.start[k] == SubStart(start[k], items[k])
        invariant forall k :: 0 <= k < i ==> out.stop[k] == SubStop(start[k], stop[k], items[k])
        invariant forall k :: 0 <= k < i ==> out.step[k] == SubStep(step[k], items[k])
      {
        var slice := fixed[i];
        assert slice == items[i];
        out.SetAxis(i, start[i], stop[i], step[i], slice);
      }
      if AllForward(items) {
        SubselectionInside(source.shape, start, stop, step, items);
      }
    }

    /** One round of the loop over the axes: axis i of the new iterator, from that of the old one. */
    method SetAxis(i: nat, a: int, b: int, p: int, slice: IndexItem)
      requires i < |start| == |stop| == |step| && slice.Range?
      modifies this
      ensures start == old(start)[i := SubStart(a, slice)]
      ensures stop == old(stop)[i := SubStop(a, b, slice)]
      ensures step == old(step)[i := SubStep(p, slice)]
    {
      start := start[i := a + Or(slice.start, 0)];
      step := step[i := p * Or(slice.step, 1)];
      stop := stop[i := a + Or(slice.stop, b - a)];
      stop := stop[i := Min(b, stop[i])];
    }

    /** __array__: all selected elements as one array. */
    ghost function Array(): NdArray<T>
      requires Valid()
      reads this
    {
      Slice(source, start, stop, step)
    }

    /** The shape property. */
    function Shape(): (d: seq<int>)
      requires Valid()
      reads this
      ensures |d| == |start|
    {
      ShapeOf(start, stop, step)
    }

    /**
      __iter__, with the yielded blocks collected. For every array with at least one axis
      the blocks, read row-major one after the other, are the row-major elements of Array().
      Without a buffer size everything comes as one block, else no block is larger than that.
     */
    method Iterate() returns (blocks: seq<NdArray<T>>, end: Outcome)
      requires Valid()
      ensures |start| == 0 ==>
                if bufSize == None || bufSize == Some(0) then end == TypeError && blocks == []
                else end == IndexError && blocks == [Array()]
      ensures |start| > 0 ==> end == Finished && Concat(blocks) == Array().data
      ensures |start| > 0 && Array().data == [] ==> blocks == []
      ensures |start| > 0 && Array().data != [] && (bufSize == None || bufSize == Some(0)) ==> blocks == [Array()]
      ensures |start| > 0 && Array().data != [] && bufSize.Some? && bufSize.value > 0 ==>
                && CutInto(blocks, Array().shape, bufSize.value)
                && forall i :: 0 <= i < |blocks| ==> 1 <= |blocks[i].data| <= bufSize.value
    {
      blocks := [];
      var shape := Shape();
      SliceReadsGrid(source, start, stop, step);
      UnclippedStop(source.shape, stop);
      GridSize(start, stop, step);
      if exists k :: 0 <= k < |shape| && shape[k] <= 0 {
        ghost var k :| 0 <= k < |shape| && shape[k] <= 0;
        ProdZero(Extents(start, stop, step), k);
        return blocks, Finished;
      }
      if |start| == 0 {
        if Or(bufSize, 0) == 0 {
          return blocks, TypeError;
        }
        return [Slice(source, start, stop, step)], IndexError;
      }
      ProductIsProd(shape);
      ProdPositive(shape);
      var budget := if Or(bufSize, 0) != 0 then Or(bufSize, 0) else Product(shape);
      blocks := ReadBlocks(source, start, stop, step, shape, budget);
      end := Finished;
      if bufSize.Some? && bufSize.value > 0 {
        BlocksAreCut(blocks, shape, bufSize.value);
      } else {
        OneBlock(blocks, Slice(source, start, stop, step));
      }
    }
  }

  /** The stop vector and the running dimension of one block, axis by axis from the last one. */
  method FindBlock(cur: seq<int>, b: seq<int>, p: seq<int>, shape: seq<nat>, budget: nat)
    returns (stop: seq<int>, rundim: nat)
    requires |cur| == |b| == |p| == |shape| && forall k :: 0 <= k < |shape| ==> shape[k] > 0
    ensures rundim == Search(shape, budget, 0)
    ensures |stop| == |b|
    ensures forall k :: 0 <= k < |b| ==> stop[k] == AxisStop(cur[k], b[k], p[k], shape[k], Nested(shape, budget, k + 1))
  {
    var count := budget;
    rundim := 0;
    stop := b;
    for i := |shape| downto 0
      invariant |stop| == |b|
      invariant count == Nested(shape, budget, i) && rundim == Search(shape, budget, i)
      invariant forall k :: i <= k < |b| ==>
                  stop[k] == AxisStop(cur[k], b[k], p[k], shape[k], Nested(shape, budget, k + 1))
    {
      if count == 0 {
        stop := stop[i := cur[i] + 1];
      } else if count <= shape[i] {
        stop := stop[i := cur[i] + count * p[i]];
        rundim := i;
      } else {
        stop := stop[i := b[i]];
      }
      stop := stop[i := Min(b[i], stop[i])];
      count := count / shape[i];
    }
  }

  lemma FoundBlock(cur: seq<int>, a: seq<int>, b: seq<int>, p: seq<int>, budget: nat, stop: seq<int>)
    requires Vectors(a, b, p) && |stop| == |a|
    requires var d := Extents(a, b, p);
             && Readable(d, budget) && Showing(cur, a, b, p, Running(d, budget))
             && forall k :: 0 <= k < |b| ==> stop[k] == AxisStop(cur[k], b[k], p[k], d[k], Nested(d, budget, k + 1))
    ensures var d := Extents(a, b, p);
            && Search(d, budget, 0) == Running(d, budget)
            && stop == BlockStop(cur, b, p, Running(d, budget), Chunk(d, budget))
  {
    var d := Extents(a, b, p);
    SearchFindsRunning(d, budget, 0);
    forall k | 0 <= k < |a|
      ensures stop[k] == BlockStop(cur, b, p, Running(d, budget), Chunk(d, budget))[k]
    {
      NestedIsQuotient(d, budget, k + 1);
      AxisStopIsBlockStop(cur, a, b, p, budget, k);
    }
  }

  /** The odometer while carries run from the last axis down to axis i; axis r was just moved from cur[r]. */
  ghost predicate Carrying(next: seq<int>, cur: seq<int>, a: seq<int>, b: seq<int>, p: seq<int>, r: nat, i: nat)
    requires Showing(cur, a, b, p, r) && |next| == |a| && i <= |a|
  {
    && next[r] >= a[r]
    && (forall k :: 0 <= k < i && k + 1 != i && k != r ==> next[k] == cur[k])
    && (forall k :: r < k < |a| ==> next[k] == a[k])
    && (forall k :: i <= k < |a| ==> a[k] <= next[k] < b[k])
    && (0 < i && i - 1 != r ==>
          next[i - 1] == cur[i - 1] ||
          (next[i - 1] == cur[i - 1] + p[i - 1] && forall k :: i <= k < |a| ==> next[k] == a[k]))
  }

  /** Moves the odometer past the block that ends at stop. */
  method Advance(cur: seq<int>, a: seq<int>, b: seq<int>, p: seq<int>, stop: seq<int>, r: nat, ghost c: nat)
    returns (next: seq<int>)
    requires Showing(cur, a, b, p, r) && c > 0 && stop == BlockStop(cur, b, p, r, c)
    ensures |next| == |a|
    ensures Remaining(next, a, b, p) == Remaining(cur[r := stop[r]], a, b, p)
    ensures BlocksLeft(next, a, b, p, r, c) == BlocksLeft(cur[r := stop[r]], a, b, p, r, c)
    ensures next[0] >= b[0] || Showing(next, a, b, p, r)
  {
    next := cur[r := stop[r]];
    ghost var moved := next;
    CarryStart(cur, a, b, p, stop, r, c);
    for i := |cur| downto 1
      invariant |next| == |a| && Carrying(next, cur, a, b, p, r, i)
      invariant Same(next, moved, a, b, p, r, c)
    {
      CarryRound(next, cur, moved, a, b, p, r, c, i);
      ghost var on := if next[i] >= b[i] then next[i := a[i]][i - 1 := next[i - 1] + p[i - 1]] else next;
      if next[i] >= b[i] {
        next := next[i := a[i]];
        next := next[i - 1 := next[i - 1] + p[i - 1]];
      }
      assert next == on;
    }
    Settled(next, cur, a, b, p, r);
  }

  /** One round of the carry loop. */
  lemma CarryRound(next: seq<int>, cur: seq<int>, moved: seq<int>, a: seq<int>, b: seq<int>, p: seq<int>,
                   r: nat, c: nat, i: nat)
    requires Showing(cur, a, b, p, r) && |next| == |moved| == |a| && c > 0 && 0 < i < |a|
    requires Carrying(next, cur, a, b, p, r, i + 1) && Same(next, moved, a, b, p, r, c)
    ensures var on := if next[i] >= b[i] then next[i := a[i]][i - 1 := next[i - 1] + p[i - 1]] else next;
            Carrying(on, cur, a, b, p, r, i) && Same(on, moved, a, b, p, r, c)
  {
    if next[i] >= b[i] {
      CarryOne(next, cur, a, b, p, r, c, i);
    } else {
      NoCarry(next, cur, a, b, p, r, i);
    }
  }

  /** After the carry loop only the first axis can be past its end. */
  lemma Settled(next: seq<int>, cur: seq<int>, a: seq<int>, b: seq<int>, p: seq<int>, r: nat)
    requires Showing(cur, a, b, p, r) && |next| == |a| && Carrying(next, cur, a, b, p, r, 1)
    ensures next[0] >= b[0] || Showing(next, a, b, p, r)
  {
  }

  /** Two odometers have the same positions and the same number of blocks before them. */
  ghost predicate Same(x: seq<int>, y: seq<int>, a: seq<int>, b: seq<int>, p: seq<int>, r: nat, c: nat)
    requires Vectors(a, b, p) && |x| == |y| == |a| && r < |a| && c > 0
  {
    Remaining(x, a, b, p) == Remaining(y, a, b, p) && BlocksLeft(x, a, b, p, r, c) == BlocksLeft(y, a, b, p, r, c)
  }

  lemma CarryStart(cur: seq<int>, a: seq<int>, b: seq<int>, p: seq<int>, stop: seq<int>, r: nat, c: nat)
    requires Showing(cur, a, b, p, r) && c > 0 && stop == BlockStop(cur, b, p, r, c)
    ensures Carrying(cur[r := stop[r]], cur, a, b, p, r, |cur|)
  {
    MulMono(0, c, p[r]);
  }

  lemma CarryOne(next: seq<int>, cur: seq<int>, a: seq<int>, b: seq<int>, p: seq<int>, r: nat, c: nat, i: nat)
    requires Showing(cur, a, b, p, r) && |next| == |a| && c > 0 && 0 < i < |a|
    requires Carrying(next, cur, a, b, p, r, i + 1) && next[i] >= b[i]
    ensures var on := next[i := a[i]][i - 1 := next[i - 1] + p[i - 1]];
            Carrying(on, cur, a, b, p, r, i) && Same(on, next, a, b, p, r, c)
  {
    Carry(next, a, b, p, i);
    CarryCount(next, a, b, p, i, r, c);
  }

  lemma NoCarry(next: seq<int>, cur: seq<int>, a: seq<int>, b: seq<int>, p: seq<int>, r: nat, i: nat)
    requires Showing(cur, a, b, p, r) && |next| == |a| && 0 < i < |a|
    requires Carrying(next, cur, a, b, p, r, i + 1) && next[i] < b[i]
    ensures Carrying(next, cur, a, b, p, r, i)
  {
  }

  function Product(shape: seq<int>): int {
    if shape == [] then 1 else shape[0] * Product(shape[1..])
  }

  lemma {:induction false} ProductIsProd(d: seq<nat>)
    ensures Product(d) == Prod(d)
  {
    if d == [] {
    } else {
      ProductIsProd(d[1..]);
    }
  }

  lemma UnclippedStop(shape: seq<nat>, stop: seq<int>)
    requires |stop| == |shape| && forall k :: 0 <= k < |stop| ==> stop[k] <= shape[k]
    ensures Clip(stop, shape) == stop
  {
  }

  /** A block is one position wide before axis r, at most c positions wide on it, complete after it. */
  ghost predicate BlockShape(shape: seq<nat>, d: seq<nat>, r: nat, c: nat) {
    && |shape| == |d| && r < |d|
    && (forall k :: 0 <= k < r ==> shape[k] == 1)
    && 1 <= shape[r] <= c
    && (forall k :: r < k < |d| ==> shape[k] == d[k])
  }

  /** The axes after r fit into n elements and those from r on do not. */
  ghost predicate LimitedAt(d: seq<nat>, n: nat, r: int) {
    0 <= r < |d| && 0 < Prod(d[r + 1..]) <= n && (r == 0 || n < Prod(d[r..]))
  }

  /** Axis r is cut into pieces of n divided by what lies after it, the last one possibly shorter. */
  ghost predicate CutAt<T>(blocks: seq<NdArray<T>>, d: seq<nat>, n: nat, r: nat)
    requires LimitedAt(d, n, r)
  {
    DivBound(n, Prod(d[r + 1..]), 1);
    var c: nat := n / Prod(d[r + 1..]);
    && |blocks| == Prod(d[..r]) * ((d[r] + c - 1) / c)
    && forall i :: 0 <= i < |blocks| ==> BlockShape(blocks[i].shape, d, r, c)
  }

  /** The blocks for n elements at a time. */
  ghost predicate CutInto<T>(blocks: seq<NdArray<T>>, d: seq<nat>, n: nat) {
    && (forall i :: 0 <= i < |blocks| ==> blocks[i].Valid())
    && forall r :: LimitedAt(d, n, r) ==> CutAt(blocks, d, n, r)
  }

  lemma BlocksAreCut<T>(blocks: seq<NdArray<T>>, d: seq<nat>, n: nat)
    requires Readable(d, n) && |blocks| == BlockCount(d, n)
    requires forall i :: 0 <= i < |blocks| ==>
               blocks[i].Valid() && BlockShape(blocks[i].shape, d, Running(d, n), Chunk(d, n))
    ensures CutInto(blocks, d, n)
  {
    forall r | LimitedAt(d, n, r)
      ensures CutAt(blocks, d, n, r)
    {
      RunningUnique(d, n, r);
      RoundedUp(d[r], Chunk(d, n));
    }
  }

  /** Without a limit there is one block, and it is the whole selection. */
  lemma OneBlock<T>(blocks: seq<NdArray<T>>, all: NdArray<T>)
    requires var d := all.shape;
             && all.Valid() && Readable(d, Prod(d)) && |blocks| == BlockCount(d, Prod(d))
             && forall i :: 0 <= i < |blocks| ==>
                  blocks[i].Valid() && BlockShape(blocks[i].shape, d, Running(d, Prod(d)), Chunk(d, Prod(d)))
    requires Concat(blocks) == all.data
    ensures blocks == [all]
  {
    var d := all.shape;
    WholeCount(d);
    var block := blocks[0];
    assert blocks == [block] && blocks[..0] == [];
    assert Concat(blocks) == Concat(blocks[..0]) + block.data;
    SameHead(block.shape, d);
    assert block == all;
  }

  lemma WholeCount(d: seq<nat>)
    requires Readable(d, Prod(d))
    ensures Running(d, Prod(d)) == 0 && Chunk(d, Prod(d)) == d[0] && BlockCount(d, Prod(d)) == 1
  {
    WholeRunning(d);
    WholeChunk(d, Prod(d), d[0], Suffix(d, 1));
    SelfPieces(d[0]);
    assert d[..0] == [];
  }

  lemma WholeRunning(d: seq<nat>)
    requires Readable(d, Prod(d))
    ensures Running(d, Prod(d)) == 0 && Prod(d) == d[0] * Suffix(d, 1) && Suffix(d, 1) > 0
  {
    SuffixPositive(d, 1);
    MulMono(1, d[0], Suffix(d, 1));
    RunningUnique(d, Prod(d), 0);
  }

  lemma WholeChunk(d: seq<nat>, n: nat, first: nat, q: nat)
    requires Readable(d, n) && Running(d, n) == 0 && q == Suffix(d, 1) > 0 && n == first * q
    ensures Chunk(d, n) == first
  {
    DivModUnique(n, first, 0, q);
  }

  lemma SelfPieces(x: nat)
    requires x > 0
    ensures CeilDiv(x, x) == 1
  {
    DivModUnique(x - 1, 0, x - 1, x);
  }

  lemma SameHead(shape: seq<nat>, d: seq<nat>)
    requires |shape| == |d| > 0 && shape[1..] == d[1..] && Prod(shape) == Prod(d) > 0
    ensures shape == d
  {
    if shape[0] < d[0] {
      MulLeSuccessor(shape[0], d[0], Prod(d[1..]));
    } else if shape[0] > d[0] {
      MulLeSuccessor(d[0], shape[0], Prod(d[1..]));
    }
  }

  /** A block holds at least one element and no more than the budget. */
  lemma {:induction false} BlockFits(shape: seq<nat>, d: seq<nat>, budget: nat)
    requires Readable(d, budget) && BlockShape(shape, d, Running(d, budget), Chunk(d, budget))
    ensures 1 <= Prod(shape) <= budget
  {
    var r := Running(d, budget);
    var q := Suffix(d, r + 1);
    ProdOnes(shape[..r]);
    assert shape[r..] == [shape[r]] + d[r + 1..];
    assert shape[r..][1..] == d[r + 1..];
    assert shape == shape[..r] + shape[r..];
    ProdAppend(shape[..r], shape[r..]);
    assert Prod(shape) == shape[r] * q;
    MulMono(shape[r], budget / q, q);
    DivModDef(budget, q);
    MulPositive(shape[r], q);
  }

  lemma StartReading(a: seq<int>, b: seq<int>, p: seq<int>, r: nat, c: nat)
    requires Vectors(a, b, p) && r < |a| && c > 0
    requires forall k :: 0 <= k < |a| ==> Extents(a, b, p)[k] > 0
    ensures Showing(a, a, b, p, r)
    ensures Remaining(a, a, b, p) == Grid(a, b, p)
    ensures BlocksLeft(a, a, b, p, r, c) == Prod(Extents(a, b, p)[..r]) * CeilDiv(Extents(a, b, p)[r], c)
  {
    forall k | 0 <= k < |a|
      ensures a[k] < b[k]
    {
      assert Extents(a, b, p)[k] > 0;
    }
    RemainingFromStart(a, b, p);
    BlocksInAll(a, b, p, r, c);
  }

  lemma BlockWidth(cur: int, b: int, p: int, c: nat)
    requires p >= 1 && cur < b && c > 0
    ensures AxisLen(cur, Min(b, cur + 1), p) == 1
    ensures 1 <= AxisLen(cur, Min(b, cur + c * p), p) <= c
  {
    AxisLenStep(cur, cur + 1, p);
    MulMono(1, c, p);
    AxisLenIsCount(cur, Min(b, cur + c * p), p, 0);
    AxisLenIsCount(cur, Min(b, cur + c * p), p, c);
  }

  /** The extents of the block of one round. */
  lemma BlockExtents(cur: seq<int>, a: seq<int>, b: seq<int>, p: seq<int>, r: nat, c: nat)
    requires Showing(cur, a, b, p, r) && c > 0
    ensures BlockShape(Extents(cur, BlockStop(cur, b, p, r, c), p), Extents(a, b, p), r, c)
  {
    forall k | 0 <= k < |b|
      ensures AxisLen(cur[k], Min(b[k], cur[k] + 1), p[k]) == 1
      ensures 1 <= AxisLen(cur[k], Min(b[k], cur[k] + c * p[k]), p[k]) <= c
    {
      BlockWidth(cur[k], b[k], p[k], c);
    }
  }

  /** The block of one round, cut out of the wrapped array. */
  lemma BlockIsSlice<T>(v: NdArray<T>, cur: seq<int>, a: seq<int>, b: seq<int>, p: seq<int>, budget: nat)
    requires v.Valid() && Sliceable(v.shape, a, b, p) && Clip(b, v.shape) == b
    requires Readable(Extents(a, b, p), budget)
    requires Showing(cur, a, b, p, Running(Extents(a, b, p), budget))
    ensures var d := Extents(a, b, p);
            var stop := BlockStop(cur, b, p, Running(d, budget), Chunk(d, budget));
            && Sliceable(v.shape, cur, stop, p)
            && BlockShape(Slice(v, cur, stop, p).shape, d, Running(d, budget), Chunk(d, budget))
            && 1 <= |Slice(v, cur, stop, p).data| <= budget
            && AllInside(v.shape, Grid(cur, stop, p))
            && Slice(v, cur, stop, p).data == Gather(v, Grid(cur, stop, p))
  {
    var d := Extents(a, b, p);
    var stop := BlockStop(cur, b, p, Running(d, budget), Chunk(d, budget));
    StopBelow(stop, b, v.shape);
    SliceReadsGrid(v, cur, stop, p);
    BlockExtents(cur, a, b, p, Running(d, budget), Chunk(d, budget));
    BlockFits(Extents(cur, stop, p), d, budget);
  }

  lemma StopBelow(stop: seq<int>, b: seq<int>, shape: seq<nat>)
    requires |stop| == |b| == |shape| && Clip(b, shape) == b
    requires forall k :: 0 <= k < |b| ==> stop[k] <= b[k]
    ensures Clip(stop, shape) == stop
  {
    assert forall k :: 0 <= k < |b| ==> Clip(b, shape)[k] <= shape[k];
  }

  lemma TakeBlock<T>(v: NdArray<T>, read: seq<seq<int>>, here: seq<seq<int>>, left: seq<seq<int>>,
                     blocks: seq<NdArray<T>>, block: NdArray<T>)
    requires v.Valid() && AllInside(v.shape, read) && AllInside(v.shape, here)
    requires Concat(blocks) == Gather(v, read) && block.data == Gather(v, here)
    ensures read + (here + left) == (read + here) + left
    ensures AllInside(v.shape, read + here) && Concat(blocks + [block]) == Gather(v, read + here)
  {
    Assoc(read, here, left);
    GatherConcat(v, read, here);
    assert (blocks + [block])[..|blocks|] == blocks;
  }

  /** The loop of __iter__: one block per round until the odometer leaves the selection. */
  method ReadBlocks<T>(source: NdArray<T>, a: seq<int>, b: seq<int>, p: seq<int>, shape: seq<nat>, budget: nat)
    returns (blocks: seq<NdArray<T>>)
    requires source.Valid() && Sliceable(source.shape, a, b, p) && Clip(b, source.shape) == b
    requires shape == Extents(a, b, p) && Readable(shape, budget)
    ensures Concat(blocks) == Slice(source, a, b, p).data
    ensures |blocks| == BlockCount(shape, budget)
    ensures forall i :: 0 <= i < |blocks| ==>
              BlockShape(blocks[i].shape, shape, Running(shape, budget), Chunk(shape, budget))
    ensures forall i :: 0 <= i < |blocks| ==> blocks[i].Valid() && 1 <= |blocks[i].data| <= budget
  {
    blocks := [];
    var cur := a;
    ghost var r, c := Running(shape, budget), Chunk(shape, budget);
    ghost var read: seq<seq<int>> := [];
    NothingRead(source, a, b, p, budget);
    while true
      invariant Showing(cur, a, b, p, r) && Progress(source, a, b, p, budget, cur, read, blocks)
      decreases BlocksLeft(cur, a, b, p, r, c)
    {
      var stop, rundim := FindBlock(cur, b, p, shape, budget);
      FoundBlock(cur, a, b, p, budget, stop);
      ReadOne(source, a, b, p, budget, cur, stop, read, blocks);
      blocks := blocks + [Slice(source, cur, stop, p)];
      read := read + Grid(cur, stop, p);
      ghost var moved := cur[r := stop[r]];
      cur := Advance(cur, a, b, p, stop, rundim, c);
      Advanced(source, a, b, p, budget, moved, cur, read, blocks);
      if cur[0] >= b[0] {
        return;
      }
    }
  }

  lemma NothingRead<T>(v: NdArray<T>, a: seq<int>, b: seq<int>, p: seq<int>, budget: nat)
    requires v.Valid() && Sliceable(v.shape, a, b, p) && Readable(Extents(a, b, p), budget)
    ensures Showing(a, a, b, p, Running(Extents(a, b, p), budget))
    ensures Progress(v, a, b, p, budget, a, [], [])
  {
    var d := Extents(a, b, p);
    StartReading(a, b, p, Running(d, budget), Chunk(d, budget));
  }

  /** Moving the odometer on changes neither what remains nor the blocks left; past the end everything is read. */
  lemma Advanced<T>(v: NdArray<T>, a: seq<int>, b: seq<int>, p: seq<int>, budget: nat,
                    cur: seq<int>, next: seq<int>, read: seq<seq<int>>, blocks: seq<NdArray<T>>)
    requires v.Valid() && Sliceable(v.shape, a, b, p) && Clip(b, v.shape) == b
    requires |cur| == |next| == |a| && Readable(Extents(a, b, p), budget)
    requires Progress(v, a, b, p, budget, cur, read, blocks)
    requires var r, c := Running(Extents(a, b, p), budget), Chunk(Extents(a, b, p), budget);
             Same(next, cur, a, b, p, r, c)
    ensures Progress(v, a, b, p, budget, next, read, blocks)
    ensures next[0] >= b[0] ==>
              && Concat(blocks) == Slice(v, a, b, p).data
              && |blocks| == BlockCount(Extents(a, b, p), budget)
  {
    if next[0] >= b[0] {
      SliceReadsGrid(v, a, b, p);
      assert read + [] == read;
    }
  }

  /** What has been read and what remains make up the selection; the blocks so far and the blocks left, all blocks. */
  ghost predicate Progress<T>(v: NdArray<T>, a: seq<int>, b: seq<int>, p: seq<int>, budget: nat,
                              cur: seq<int>, read: seq<seq<int>>, blocks: seq<NdArray<T>>)
    requires v.Valid() && Vectors(a, b, p) && |cur| == |a| && Readable(Extents(a, b, p), budget)
  {
    var d := Extents(a, b, p);
    var r, c := Running(d, budget), Chunk(d, budget);
    && read + Remaining(cur, a, b, p) == Grid(a, b, p)
    && AllInside(v.shape, read) && Concat(blocks) == Gather(v, read)
    && |blocks| + BlocksLeft(cur, a, b, p, r, c) == BlockCount(d, budget)
    && forall i :: 0 <= i < |blocks| ==>
         blocks[i].Valid() && BlockShape(blocks[i].shape, d, r, c) && 1 <= |blocks[i].data| <= budget
  }

  /** One block read: the odometer still stands at its start, except on the running dimension. */
  lemma ReadOne<T>(v: NdArray<T>, a: seq<int>, b: seq<int>, p: seq<int>, budget: nat,
                   cur: seq<int>, stop: seq<int>, read: seq<seq<int>>, blocks: seq<NdArray<T>>)
    requires v.Valid() && Sliceable(v.shape, a, b, p) && Clip(b, v.shape) == b && Readable(Extents(a, b, p), budget)
    requires Showing(cur, a, b, p, Running(Extents(a, b, p), budget))
    requires Progress(v, a, b, p, budget, cur, read, blocks)
    requires var d := Extents(a, b, p);
             stop == BlockStop(cur, b, p, Running(d, budget), Chunk(d, budget))
    ensures Sliceable(v.shape, cur, stop, p)
    ensures var r, c := Running(Extents(a, b, p), budget), Chunk(Extents(a, b, p), budget);
            && Progress(v, a, b, p, budget, cur[r := stop[r]], read + Grid(cur, stop, p),
                        blocks + [Slice(v, cur, stop, p)])
            && BlocksLeft(cur[r := stop[r]], a, b, p, r, c) < BlocksLeft(cur, a, b, p, r, c)
  {
    var d := Extents(a, b, p);
    var r, c := Running(d, budget), Chunk(d, budget);
    BlockIsSlice(v, cur, a, b, p, budget);
    ReadBlock(cur, a, b, p, r, c);
    ReadBlockCount(cur, a, b, p, r, c);
    TakeBlock(v, read, Grid(cur, stop, p), Remaining(cur[r := stop[r]], a, b, p), blocks, Slice(v, cur, stop, p));
  }

  // ----- subscripting a selection -----

  ghost predicate AllForward(items: seq<IndexItem>) {
    forall k :: 0 <= k < |items| ==> Forward(items[k])
  }

  ghost function SubStarts(a: seq<int>, items: seq<IndexItem>): (r: seq<int>)
    requires |items| == |a| && AllRanges(items)
  {
    seq(|a|, k requires 0 <= k < |a| => SubStart(a[k], items[k]))
  }

  ghost function SubStops(a: seq<int>, b: seq<int>, items: seq<IndexItem>): (r: seq<int>)
    requires |items| == |a| == |b| && AllRanges(items)
  {
    seq(|a|, k requires 0 <= k < |a| => SubStop(a[k], b[k], items[k]))
  }

  ghost function SubSteps(p: seq<int>, items: seq<IndexItem>): (r: seq<int>)
    requires |items| == |p| && AllRanges(items)
  {
    seq(|p|, k requires 0 <= k < |p| => SubStep(p[k], items[k]))
  }

  ghost function Froms(items: seq<IndexItem>): seq<int>
    requires AllRanges(items)
  {
    seq(|items|, k requires 0 <= k < |items| => From(items[k]))
  }

  ghost function Tos(items: seq<IndexItem>, d: seq<nat>): seq<int>
    requires |items| == |d| && AllRanges(items)
  {
    seq(|items|, k requires 0 <= k < |items| => To(items[k], d[k]))
  }

  ghost function Bys(items: seq<IndexItem>): seq<int>
    requires AllRanges(items)
  {
    seq(|items|, k requires 0 <= k < |items| => By(items[k]))
  }

  lemma SubselectionInside(shape: seq<nat>, a: seq<int>, b: seq<int>, p: seq<int>, items: seq<IndexItem>)
    requires Sliceable(shape, a, b, p) && |items| == |a| && AllForward(items)
    requires forall k :: 0 <= k < |b| ==> 0 <= b[k] <= shape[k]
    ensures AllRanges(items)
    ensures Sliceable(shape, SubStarts(a, items), SubStops(a, b, items), SubSteps(p, items))
    ensures forall k :: 0 <= k < |b| ==> 0 <= SubStops(a, b, items)[k] <= shape[k]
  {
    forall k | 0 <= k < |a|
      ensures SubStart(a[k], items[k]) >= 0
      ensures SubStep(p[k], items[k]) >= 1
      ensures 0 <= SubStop(a[k], b[k], items[k]) <= shape[k]
    {
      assert Forward(items[k]);
      MulPositive(p[k], Or(items[k].step, 1));
    }
  }
}
