/**
  Strided selections. A selection on n axes is given by three vectors: on axis k the
  positions a[k], a[k] + p[k], a[k] + 2 * p[k], ... strictly below b[k].
*/
module Selection {
  import opened Arith
  import opened RowMajor

  /** How many positions one axis selects. */
  function AxisLen(a: int, b: int, p: int): (n: nat)
    requires p >= 1
  {
    if b <= a then 0 else (b - a - 1) / p + 1
  }

  predicate Steps(p: seq<int>) {
    forall k :: 0 <= k < |p| ==> p[k] >= 1
  }

  ghost predicate Vectors(a: seq<int>, b: seq<int>, p: seq<int>) {
    |a| == |b| == |p| && Steps(p)
  }

  function Prepend(x: int, rows: seq<seq<int>>): (r: seq<seq<int>>)
    ensures |r| == |rows|
  {
    seq(|rows|, i requires 0 <= i < |rows| => [x] + rows[i])
  }

  /** One axis on top of the list of positions of the axes after it. */
  function Sweep(a: int, b: int, p: int, inner: seq<seq<int>>): (rows: seq<seq<int>>)
    requires p >= 1
    decreases if b < a then 0 else b - a
  {
    if a >= b then [] else Prepend(a, inner) + Sweep(a + p, b, p, inner)
  }

  /** All selected positions, in row-major order. */
  function Grid(a: seq<int>, b: seq<int>, p: seq<int>): (rows: seq<seq<int>>)
    requires Vectors(a, b, p)
  {
    if a == [] then [[]] else Sweep(a[0], b[0], p[0], Grid(a[1..], b[1..], p[1..]))
  }

  function Extents(a: seq<int>, b: seq<int>, p: seq<int>): (d: seq<nat>)
    requires Vectors(a, b, p)
    ensures |d| == |a|
    ensures forall k :: 0 <= k < |a| ==> d[k] == AxisLen(a[k], b[k], p[k])
  {
    seq(|a|, k requires 0 <= k < |a| => AxisLen(a[k], b[k], p[k]))
  }

  // ----- one axis -----

  lemma AxisLenStep(a: int, b: int, p: int)
    requires p >= 1
    ensures a < b ==> AxisLen(a, b, p) == 1 + AxisLen(a + p, b, p)
    ensures a >= b ==> AxisLen(a, b, p) == 0
  {
    if a < b {
      var t := b - a - 1;
      DivModDef(t, p);
      if a + p < b {
        DivModUnique(t - p, t / p - 1, t % p, p);
      } else {
        DivModUnique(t, 0, t, p);
      }
    }
  }

  /** Position number i of the lattice a, a + p, ... lies below b exactly when i < AxisLen. */
  lemma AxisLenIsCount(a: int, b: int, p: int, i: nat)
    requires p >= 1
    ensures i < AxisLen(a, b, p) <==> a + i * p < b
  {
    if a < b {
      DivBound(b - a - 1, p, i);
    } else {
      MulMono(0, i, p);
    }
  }

  // ----- structure of Grid -----

  lemma PrependConcat(x: int, s: seq<seq<int>>, t: seq<seq<int>>)
    ensures Prepend(x, s + t) == Prepend(x, s) + Prepend(x, t)
  {
  }

  /** Cutting an axis after c lattice positions cuts its row-major list in two. */
  lemma {:induction false} SweepSplit(a: int, b: int, p: int, inner: seq<seq<int>>, c: nat)
    requires p >= 1
    ensures var cut := Min(b, a + c * p);
            Sweep(a, b, p, inner) == Sweep(a, cut, p, inner) + Sweep(cut, b, p, inner)
    decreases c
  {
    if a < b && c > 0 {
      Distribute(c - 1, 1, p);
      MulMono(0, c - 1, p);
      SweepSplit(a + p, b, p, inner, c - 1);
      var cut := Min(b, a + c * p);
      assert Sweep(a, cut, p, inner) == Prepend(a, inner) + Sweep(a + p, cut, p, inner);
    } else {
      MulMono(0, c, p);
    }
  }

  lemma {:induction false} SweepSize(a: int, b: int, p: int, inner: seq<seq<int>>)
    requires p >= 1
    ensures |Sweep(a, b, p, inner)| == AxisLen(a, b, p) * |inner|
    decreases if b < a then 0 else b - a
  {
    AxisLenStep(a, b, p);
    if a >= b {
    } else {
      SweepSize(a + p, b, p, inner);
      Distribute(1, AxisLen(a + p, b, p), |inner|);
    }
  }

  /** Entry i * |inner| + j of the list is entry j of the inner list under axis position i. */
  lemma {:induction false} SweepAt(a: int, b: int, p: int, inner: seq<seq<int>>, i: nat, j: nat)
    requires p >= 1 && i < AxisLen(a, b, p) && j < |inner|
    ensures i * |inner| + j < |Sweep(a, b, p, inner)|
    ensures Sweep(a, b, p, inner)[i * |inner| + j] == [a + i * p] + inner[j]
    decreases i
  {
    AxisLenStep(a, b, p);
    SweepSize(a, b, p, inner);
    MulLeSuccessor(i, AxisLen(a, b, p), |inner|);
    if i == 0 {
    } else {
      SweepAt(a + p, b, p, inner, i - 1, j);
      Distribute(i - 1, 1, |inner|);
      Distribute(i - 1, 1, p);
      MulMono(0, i - 1, |inner|);
    }
  }

  /** The selection has as many positions as the product of its extents. */
  lemma {:induction false} GridSize(a: seq<int>, b: seq<int>, p: seq<int>)
    requires Vectors(a, b, p)
    ensures |Grid(a, b, p)| == Prod(Extents(a, b, p))
  {
    if a == [] {
    } else {
      assert Extents(a, b, p)[1..] == Extents(a[1..], b[1..], p[1..]);
      GridSize(a[1..], b[1..], p[1..]);
      SweepSize(a[0], b[0], p[0], Grid(a[1..], b[1..], p[1..]));
    }
  }

  /** Multiplying out the lattice: position idx of the selection. */
  function Point(a: seq<int>, p: seq<int>, idx: seq<nat>): (x: seq<int>)
    requires |a| == |p| == |idx|
    ensures |x| == |a| && forall k :: 0 <= k < |a| ==> x[k] == a[k] + idx[k] * p[k]
  {
    seq(|a|, k requires 0 <= k < |a| => a[k] + idx[k] * p[k])
  }

  /** The list is row-major: the multi-index idx is listed at its row-major rank. */
  lemma {:induction false} GridAt(a: seq<int>, b: seq<int>, p: seq<int>, idx: seq<nat>)
    requires Vectors(a, b, p)
    requires InBounds(Extents(a, b, p), idx)
    ensures |Grid(a, b, p)| == Prod(Extents(a, b, p))
    ensures Grid(a, b, p)[Ravel(Extents(a, b, p), idx)] == Point(a, p, idx)
  {
    GridSize(a, b, p);
    if a == [] {
    } else {
      var d := Extents(a[1..], b[1..], p[1..]);
      assert Extents(a, b, p)[1..] == d && InBounds(d, idx[1..]);
      PointFirst(a, p, idx);
      GridAt(a[1..], b[1..], p[1..], idx[1..]);
      SweepAt(a[0], b[0], p[0], Grid(a[1..], b[1..], p[1..]), idx[0], Ravel(d, idx[1..]));
    }
  }

  lemma PointFirst(a: seq<int>, p: seq<int>, idx: seq<nat>)
    requires |a| == |p| == |idx| > 0
    ensures Point(a, p, idx) == [a[0] + idx[0] * p[0]] + Point(a[1..], p[1..], idx[1..])
  {
  }

  // ----- each selected position once, in order, and nothing else -----

  ghost predicate LexLess(x: seq<int>, y: seq<int>) {
    |x| == |y| && |x| > 0 && (x[0] < y[0] || (x[0] == y[0] && LexLess(x[1..], y[1..])))
  }

  ghost predicate Ordered(rows: seq<seq<int>>) {
    forall i, j :: 0 <= i < j < |rows| ==> LexLess(rows[i], rows[j])
  }

  ghost predicate SameLength(rows: seq<seq<int>>, n: nat) {
    forall i :: 0 <= i < |rows| ==> |rows[i]| == n
  }

  lemma {:induction false} SweepOrdered(a: int, b: int, p: int, inner: seq<seq<int>>, n: nat)
    requires p >= 1 && Ordered(inner) && SameLength(inner, n)
    ensures var rows := Sweep(a, b, p, inner);
            && Ordered(rows) && SameLength(rows, n + 1)
            && forall i :: 0 <= i < |rows| ==> rows[i][0] >= a
    decreases if b < a then 0 else b - a
  {
    if a >= b {
    } else {
      SweepOrdered(a + p, b, p, inner, n);
      var first, later := Prepend(a, inner), Sweep(a + p, b, p, inner);
      var rows := Sweep(a, b, p, inner);
      forall i | 0 <= i < |rows|
        ensures |rows[i]| == n + 1 && rows[i][0] >= a
      {
        assert rows[i] == if i < |first| then first[i] else later[i - |first|];
      }
      forall i, j | 0 <= i < j < |rows|
        ensures LexLess(rows[i], rows[j])
      {
        assert rows[j] == if j < |first| then first[j] else later[j - |first|];
        if j < |first| {
          assert LexLess(inner[i], inner[j]);
          assert first[i][1..] == inner[i] && first[j][1..] == inner[j];
        } else if i < |first| {
          assert rows[i][0] == a < a + p <= rows[j][0];
        } else {
          assert LexLess(later[i - |first|], later[j - |first|]);
        }
      }
    }
  }

  lemma {:induction false} GridOrdered(a: seq<int>, b: seq<int>, p: seq<int>)
    requires Vectors(a, b, p)
    ensures Ordered(Grid(a, b, p)) && SameLength(Grid(a, b, p), |a|)
  {
    if a == [] {
    } else {
      GridOrdered(a[1..], b[1..], p[1..]);
      SweepOrdered(a[0], b[0], p[0], Grid(a[1..], b[1..], p[1..]), |a| - 1);
    }
  }

  /** x lies on the lattice of every axis and below its stop. */
  ghost predicate Selected(a: seq<int>, b: seq<int>, p: seq<int>, x: seq<int>)
    requires Vectors(a, b, p)
  {
    |x| == |a| && forall k :: 0 <= k < |a| ==> a[k] <= x[k] < b[k] && (x[k] - a[k]) % p[k] == 0
  }

  /** Grid lists a position if and only if it is selected. */
  lemma {:induction false} GridMember(a: seq<int>, b: seq<int>, p: seq<int>, x: seq<int>)
    requires Vectors(a, b, p)
    ensures x in Grid(a, b, p) <==> Selected(a, b, p, x)
  {
    var d := Extents(a, b, p);
    GridSize(a, b, p);
    if x in Grid(a, b, p) {
      var r :| 0 <= r < |Grid(a, b, p)| && Grid(a, b, p)[r] == x;
      var idx := Unravel(d, r);
      GridAt(a, b, p, idx);
      forall k | 0 <= k < |a|
        ensures a[k] <= x[k] < b[k] && (x[k] - a[k]) % p[k] == 0
      {
        AxisLenIsCount(a[k], b[k], p[k], idx[k]);
        MulMono(0, idx[k], p[k]);
        DivModUnique(x[k] - a[k], idx[k], 0, p[k]);
      }
    }
    if Selected(a, b, p, x) {
      SelectedIsListed(a, b, p, x);
    }
  }

  lemma {:induction false} SelectedIsListed(a: seq<int>, b: seq<int>, p: seq<int>, x: seq<int>)
    requires Vectors(a, b, p)
    ensures Selected(a, b, p, x) ==> x in Grid(a, b, p)
  {
    if Selected(a, b, p, x) {
      var idx := seq(|a|, k requires 0 <= k < |a| => LatticeIndex(a[k], x[k], p[k]));
      forall k | 0 <= k < |a|
        ensures idx[k] < Extents(a, b, p)[k] && a[k] + idx[k] * p[k] == x[k]
      {
        DivModDef(x[k] - a[k], p[k]);
        AxisLenIsCount(a[k], b[k], p[k], idx[k]);
      }
      GridAt(a, b, p, idx);
      assert Point(a, p, idx) == x;
    }
  }

  function LatticeIndex(a: int, x: int, p: int): nat
    requires p >= 1 && a <= x
  {
    DivBound(x - a, p, 0);
    (x - a) / p
  }
}
