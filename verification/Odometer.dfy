/** The odometer behind the buffered block iterator: what is still to be read, and in how many blocks. */
module Odometer {
  import opened Sequences
  import opened Arith
  import opened RowMajor
  import opened Selection

  /** The positions not yet read when the odometer shows cur: those at or after cur, in row-major order. */
  function Remaining(cur: seq<int>, a: seq<int>, b: seq<int>, p: seq<int>): (rows: seq<seq<int>>)
    requires Vectors(a, b, p) && |cur| == |a|
  {
    if cur == [] then [[]]
    else if cur[0] >= b[0] then []
    else Prepend(cur[0], Remaining(cur[1..], a[1..], b[1..], p[1..])) +
         Sweep(cur[0] + p[0], b[0], p[0], Grid(a[1..], b[1..], p[1..]))
  }

  lemma {:induction false} RemainingFromStart(a: seq<int>, b: seq<int>, p: seq<int>)
    requires Vectors(a, b, p)
    ensures Remaining(a, a, b, p) == Grid(a, b, p)
  {
    if a == [] {
    } else {
      RemainingFromStart(a[1..], b[1..], p[1..]);
    }
  }

  /** The odometer is inside the selection on every axis and freshly reset on every axis after r. */
  ghost predicate Showing(cur: seq<int>, a: seq<int>, b: seq<int>, p: seq<int>, r: nat) {
    && Vectors(a, b, p) && |cur| == |a| && r < |a|
    && (forall k :: 0 <= k < |a| ==> a[k] <= cur[k] < b[k])
    && (forall k :: r < k < |a| ==> cur[k] == a[k])
  }

  /**
    The stop vector of one block: a single position on every axis before r, at most c
    positions on axis r, everything on the axes after r.
   */
  function BlockStop(cur: seq<int>, b: seq<int>, p: seq<int>, r: nat, c: nat): (stop: seq<int>)
    requires |cur| == |b| == |p|
    ensures |stop| == |cur|
  {
    seq(|cur|, k requires 0 <= k < |cur| =>
      if k < r then Min(b[k], cur[k] + 1)
      else if k == r then Min(b[k], cur[k] + c * p[k])
      else b[k])
  }

  lemma SinglePosition(x: int, b: int, p: int, inner: seq<seq<int>>)
    requires p >= 1 && x < b
    ensures Sweep(x, Min(b, x + 1), p, inner) == Prepend(x, inner)
  {
    assert Sweep(x + p, x + 1, p, inner) == [];
  }

  lemma ReadLeadingBlock(cur: seq<int>, a: seq<int>, b: seq<int>, p: seq<int>, c: nat)
    requires Showing(cur, a, b, p, 0)
    ensures var stop := BlockStop(cur, b, p, 0, c);
            Remaining(cur, a, b, p) == Grid(cur, stop, p) + Remaining(cur[0 := stop[0]], a, b, p)
  {
    var stop := BlockStop(cur, b, p, 0, c);
    assert cur[1..] == a[1..] && stop[1..] == b[1..] && cur[0 := stop[0]][1..] == a[1..];
    RemainingFromStart(a[1..], b[1..], p[1..]);
    SweepSplit(cur[0], b[0], p[0], Grid(a[1..], b[1..], p[1..]), c);
  }

  /** Reading one block removes exactly the block's positions from the front of what remains. */
  lemma {:induction false} ReadBlock(cur: seq<int>, a: seq<int>, b: seq<int>, p: seq<int>, r: nat, c: nat)
    requires Showing(cur, a, b, p, r)
    ensures var stop := BlockStop(cur, b, p, r, c);
            Remaining(cur, a, b, p) == Grid(cur, stop, p) + Remaining(cur[r := stop[r]], a, b, p)
    decreases r
  {
    if r == 0 {
      ReadLeadingBlock(cur, a, b, p, c);
    } else {
      var stop := BlockStop(cur, b, p, r, c);
      var next := cur[r := stop[r]];
      var tail, left := cur[1..], next[1..];
      assert BlockStop(tail, b[1..], p[1..], r - 1, c) == stop[1..] && left == tail[r - 1 := stop[r]];
      var here, later := Grid(tail, stop[1..], p[1..]), Remaining(left, a[1..], b[1..], p[1..]);
      var rest := Sweep(cur[0] + p[0], b[0], p[0], Grid(a[1..], b[1..], p[1..]));
      calc {
        Remaining(cur, a, b, p);
        Prepend(cur[0], Remaining(tail, a[1..], b[1..], p[1..])) + rest;
        { ReadBlock(tail, a[1..], b[1..], p[1..], r - 1, c); }
        Prepend(cur[0], here + later) + rest;
        { PrependSplit(cur[0], here + later, here, later, rest); }
        Prepend(cur[0], here) + (Prepend(cur[0], later) + rest);
        { SingleRow(cur, b, p, stop); }
        Grid(cur, stop, p) + Remaining(next, a, b, p);
      }
    }
  }

  lemma PrependSplit(x: int, rows: seq<seq<int>>, here: seq<seq<int>>, later: seq<seq<int>>, rest: seq<seq<int>>)
    requires rows == here + later
    ensures Prepend(x, rows) + rest == Prepend(x, here) + (Prepend(x, later) + rest)
  {
    PrependConcat(x, here, later);
    Assoc(Prepend(x, here), Prepend(x, later), rest);
  }

  lemma SingleRow(cur: seq<int>, b: seq<int>, p: seq<int>, stop: seq<int>)
    requires Vectors(cur, stop, p) && |b| == |cur| > 0 && cur[0] < b[0] && stop[0] == Min(b[0], cur[0] + 1)
    ensures Grid(cur, stop, p) == Prepend(cur[0], Grid(cur[1..], stop[1..], p[1..]))
  {
    SinglePosition(cur[0], b[0], p[0], Grid(cur[1..], stop[1..], p[1..]));
  }

  /** Carrying out of axis i, whose later axes are already reset, changes nothing that remains. */
  lemma {:induction false} Carry(cur: seq<int>, a: seq<int>, b: seq<int>, p: seq<int>, i: nat)
    requires Vectors(a, b, p) && |cur| == |a| && 0 < i < |a|
    requires forall k :: 0 <= k < i ==> cur[k] < b[k]
    requires cur[i] >= b[i]
    requires forall k :: i < k < |a| ==> cur[k] == a[k]
    ensures Remaining(cur, a, b, p) == Remaining(cur[i := a[i]][i - 1 := cur[i - 1] + p[i - 1]], a, b, p)
  {
    var next := cur[i := a[i]][i - 1 := cur[i - 1] + p[i - 1]];
    if i == 1 {
      assert next[1..] == a[1..];
      RemainingFromStart(a[1..], b[1..], p[1..]);
      assert Remaining(cur[1..], a[1..], b[1..], p[1..]) == [];
    } else {
      var tail := cur[1..];
      assert a[1..][i - 1] == a[i] && p[1..][i - 2] == p[i - 1] && tail[i - 2] == cur[i - 1];
      assert next[1..] == tail[i - 1 := a[i]][i - 2 := tail[i - 2] + p[i - 1]];
      Carry(tail, a[1..], b[1..], p[1..], i - 1);
    }
  }

  // ----- how many blocks -----

  function CeilDiv(x: nat, c: nat): (n: nat)
    requires c > 0
  {
    if x == 0 then 0 else (x - 1) / c + 1
  }

  lemma RoundedUp(x: nat, c: nat)
    requires c > 0 && x > 0
    ensures CeilDiv(x, c) == (x + c - 1) / c
  {
    DivModDef(x - 1, c);
    Distribute((x - 1) / c, 1, c);
    DivModUnique(x - 1 + c, (x - 1) / c + 1, (x - 1) % c, c);
  }

  lemma CeilDivStep(x: nat, c: nat)
    requires c > 0 && x > 0
    ensures CeilDiv(x, c) == 1 + CeilDiv(if x <= c then 0 else x - c, c)
  {
    DivModDef(x - 1, c);
    if x <= c {
      DivModUnique(x - 1, 0, x - 1, c);
    } else {
      DivModUnique(x - 1 - c, (x - 1) / c - 1, (x - 1) % c, c);
    }
  }

  /** Blocks still to come when axis r is read c positions at a time. */
  function BlocksLeft(cur: seq<int>, a: seq<int>, b: seq<int>, p: seq<int>, r: nat, c: nat): (n: nat)
    requires Vectors(a, b, p) && |cur| == |a| && r < |a| && c > 0
    decreases r
  {
    if cur[0] >= b[0] then 0
    else if r == 0 then CeilDiv(AxisLen(cur[0], b[0], p[0]), c)
    else BlocksLeft(cur[1..], a[1..], b[1..], p[1..], r - 1, c) +
         AxisLen(cur[0] + p[0], b[0], p[0]) * BlocksLeft(a[1..], a[1..], b[1..], p[1..], r - 1, c)
  }

  lemma AxisLenAdvance(x: int, b: int, p: int, c: nat)
    requires p >= 1 && x < b
    ensures var n := AxisLen(x, b, p);
            AxisLen(Min(b, x + c * p), b, p) == if n <= c then 0 else n - c
    decreases c
  {
    if c > 0 {
      AxisLenStep(x, b, p);
      Distribute(c - 1, 1, p);
      MulMono(0, c - 1, p);
      if x + p < b {
        AxisLenAdvance(x + p, b, p, c - 1);
      }
    }
  }

  lemma {:induction false} ReadBlockCount(cur: seq<int>, a: seq<int>, b: seq<int>, p: seq<int>, r: nat, c: nat)
    requires Showing(cur, a, b, p, r) && c > 0
    ensures var stop := BlockStop(cur, b, p, r, c);
            BlocksLeft(cur, a, b, p, r, c) == 1 + BlocksLeft(cur[r := stop[r]], a, b, p, r, c)
  {
    var stop := BlockStop(cur, b, p, r, c);
    var next := cur[r := stop[r]];
    if r == 0 {
      AxisLenStep(cur[0], b[0], p[0]);
      AxisLenAdvance(cur[0], b[0], p[0], c);
      CeilDivStep(AxisLen(cur[0], b[0], p[0]), c);
    } else {
      assert BlockStop(cur[1..], b[1..], p[1..], r - 1, c) == stop[1..];
      ReadBlockCount(cur[1..], a[1..], b[1..], p[1..], r - 1, c);
      assert next[1..] == cur[1..][r - 1 := stop[r]];
    }
  }

  lemma {:induction false} CarryCount(cur: seq<int>, a: seq<int>, b: seq<int>, p: seq<int>, i: nat, r: nat, c: nat)
    requires Vectors(a, b, p) && |cur| == |a| && 0 < i <= r < |a| && c > 0
    requires forall k :: 0 <= k < i ==> cur[k] < b[k]
    requires cur[i] >= b[i]
    requires forall k :: i < k < |a| ==> cur[k] == a[k]
    ensures BlocksLeft(cur, a, b, p, r, c)
         == BlocksLeft(cur[i := a[i]][i - 1 := cur[i - 1] + p[i - 1]], a, b, p, r, c)
  {
    var next := cur[i := a[i]][i - 1 := cur[i - 1] + p[i - 1]];
    if i == 1 {
      assert next[1..] == a[1..];
      var x := cur[0] + p[0];
      AxisLenStep(x, b[0], p[0]);
      Distribute(1, AxisLen(x + p[0], b[0], p[0]), BlocksLeft(a[1..], a[1..], b[1..], p[1..], r - 1, c));
    } else {
      assert next[1..] == cur[1..][i - 1 := a[i]][i - 2 := cur[i - 1] + p[i - 1]];
      CarryCount(cur[1..], a[1..], b[1..], p[1..], i - 1, r - 1, c);
    }
  }

  /** All in all: the extents before r multiplied out, times the pieces axis r is cut into. */
  lemma {:induction false} BlocksInAll(a: seq<int>, b: seq<int>, p: seq<int>, r: nat, c: nat)
    requires Vectors(a, b, p) && r < |a| && c > 0
    requires forall k :: 0 <= k < |a| ==> a[k] < b[k]
    ensures var d := Extents(a, b, p);
            BlocksLeft(a, a, b, p, r, c) == Prod(d[..r]) * CeilDiv(d[r], c)
  {
    var d := Extents(a, b, p);
    if r == 0 {
    } else {
      var d' := Extents(a[1..], b[1..], p[1..]);
      assert d[1..] == d' && d[..r][1..] == d'[..r - 1];
      BlocksInAll(a[1..], b[1..], p[1..], r - 1, c);
      AxisLenStep(a[0], b[0], p[0]);
      var rest := BlocksLeft(a[1..], a[1..], b[1..], p[1..], r - 1, c);
      Distribute(1, AxisLen(a[0] + p[0], b[0], p[0]), rest);
      MulAssoc(d[0], Prod(d'[..r - 1]), CeilDiv(d[r], c));
    }
  }

  // ----- the running dimension -----

  /** Elements in one full read of the axes from k on. */
  function Suffix(d: seq<nat>, k: nat): (n: nat)
    requires k <= |d|
  {
    Prod(d[k..])
  }

  lemma SuffixStep(d: seq<nat>, k: nat)
    requires k < |d|
    ensures Suffix(d, k) == d[k] * Suffix(d, k + 1)
  {
    assert d[k..][1..] == d[k + 1..];
  }

  lemma {:induction false} SuffixPositive(d: seq<nat>, k: nat)
    requires k <= |d| && forall i :: 0 <= i < |d| ==> d[i] > 0
    ensures Suffix(d, k) > 0
  {
    ProdPositive(d[k..]);
  }

  /** Every extent is positive and at least one element may be read at a time. */
  ghost predicate Readable(d: seq<nat>, count: nat) {
    d != [] && count > 0 && forall k :: 0 <= k < |d| ==> d[k] > 0
  }

  /** The running dimension: the first axis whose later axes together fit into count elements. */
  ghost function Running(d: seq<nat>, count: nat): (r: nat)
    requires Readable(d, count)
    ensures r < |d| && 0 < Suffix(d, r + 1) <= count
    ensures r > 0 ==> count < Suffix(d, r)
  {
    assert Suffix(d, |d|) == 1;
    RunningFrom(d, count, |d| - 1)
  }

  lemma RunningUnique(d: seq<nat>, count: nat, r: nat)
    requires Readable(d, count) && r < |d| && Suffix(d, r + 1) <= count && (r == 0 || count < Suffix(d, r))
    ensures r == Running(d, count)
  {
    var r' := Running(d, count);
    if r < r' {
      SuffixMono(d, r + 1, r');
    } else if r' < r {
      SuffixMono(d, r' + 1, r);
    }
  }

  ghost function RunningFrom(d: seq<nat>, count: nat, k: nat): (r: nat)
    requires Readable(d, count) && k < |d| && Suffix(d, k + 1) <= count
    ensures r < |d| && 0 < Suffix(d, r + 1) <= count
    ensures r > 0 ==> count < Suffix(d, r)
  {
    SuffixPositive(d, k + 1);
    if k == 0 || count < Suffix(d, k) then k else RunningFrom(d, count, k - 1)
  }

  /** The budget divided by what lies on the axes from i on. */
  ghost function Quotient(d: seq<nat>, count: nat, i: nat): (q: nat)
    requires Readable(d, count) && i <= |d|
  {
    SuffixPositive(d, i);
    DivBound(count, Suffix(d, i), 0);
    count / Suffix(d, i)
  }

  /** How many positions of the running dimension one block takes. */
  ghost function Chunk(d: seq<nat>, count: nat): (c: nat)
    requires Readable(d, count)
    ensures c > 0
  {
    var r := Running(d, count);
    DivBound(count, Suffix(d, r + 1), 1);
    Quotient(d, count, r + 1)
  }

  ghost function BlockCount(d: seq<nat>, count: nat): nat
    requires Readable(d, count)
  {
    var r := Running(d, count);
    Prod(d[..r]) * CeilDiv(d[r], Chunk(d, count))
  }

  lemma {:induction false} SuffixMono(d: seq<nat>, i: nat, j: nat)
    requires i <= j <= |d| && forall k :: 0 <= k < |d| ==> d[k] > 0
    ensures Suffix(d, j) <= Suffix(d, i)
    decreases j - i
  {
    if i == j {
    } else {
      SuffixMono(d, i + 1, j);
      SuffixStep(d, i);
      MulMono(1, d[i], Suffix(d, i + 1));
    }
  }

  /** The count left for axis i - 1: one floor division per axis, last axis first. */
  function Nested(d: seq<nat>, count: nat, i: nat): (q: nat)
    requires i <= |d| && forall k :: 0 <= k < |d| ==> d[k] > 0
    decreases |d| - i
  {
    if i == |d| then count else DivBound(Nested(d, count, i + 1), d[i], 0); Nested(d, count, i + 1) / d[i]
  }

  /** The running dimension found after visiting the axes from the last one down to i. */
  function Search(d: seq<nat>, count: nat, i: nat): (r: nat)
    requires i <= |d| && forall k :: 0 <= k < |d| ==> d[k] > 0
    ensures r == 0 || r < |d|
    decreases |d| - i
  {
    if i == |d| then 0
    else if 0 < Nested(d, count, i + 1) <= d[i] then i
    else Search(d, count, i + 1)
  }

  /** The nested floor divisions collapse to one. */
  lemma {:induction false} NestedIsQuotient(d: seq<nat>, count: nat, i: nat)
    requires Readable(d, count) && i <= |d|
    ensures Nested(d, count, i) == Quotient(d, count, i)
    decreases |d| - i
  {
    if i == |d| {
      DivModUnique(count, count, 0, 1);
    } else {
      NestedIsQuotient(d, count, i + 1);
      SuffixPositive(d, i + 1);
      DivDiv(count, Suffix(d, i + 1), d[i]);
      SuffixStep(d, i);
    }
  }

  lemma QuotientReachesExtent(d: seq<nat>, count: nat, i: nat)
    requires Readable(d, count) && i < |d|
    ensures Quotient(d, count, i + 1) >= d[i] <==> count >= Suffix(d, i)
    ensures Quotient(d, count, i + 1) > 0 <==> count >= Suffix(d, i + 1)
  {
    SuffixPositive(d, i + 1);
    SuffixStep(d, i);
    DivBound(count, Suffix(d, i + 1), 1);
    DivBound(count, Suffix(d, i + 1), d[i]);
  }

  /** The quotient of the budget by what lies after axis i tells on which side of the running dimension i is. */
  lemma RunningCases(d: seq<nat>, count: nat, i: nat)
    requires Readable(d, count) && i < |d|
    ensures var q := Quotient(d, count, i + 1);
            var r := Running(d, count);
            && (i < r ==> q == 0)
            && (i >= r ==> q > 0)
            && (i == r ==> q == Chunk(d, count))
            && (i > r ==> q >= d[i])
            && (i == r > 0 ==> q < d[i])
  {
    var r := Running(d, count);
    QuotientReachesExtent(d, count, i);
    if i < r {
      SuffixMono(d, i + 1, r);
    } else {
      SuffixMono(d, r + 1, i + 1);
      if i > r {
        SuffixMono(d, r + 1, i);
      }
    }
  }

  /** The search finds the running dimension. */
  lemma {:induction false} SearchFindsRunning(d: seq<nat>, count: nat, i: nat)
    requires Readable(d, count) && i <= |d|
    ensures var r := Running(d, count);
            if i <= r then Search(d, count, i) == r
            else Search(d, count, i) == 0 || Nested(d, count, i) <= 1
    decreases |d| - i
  {
    if i == |d| {
    } else {
      SearchFindsRunning(d, count, i + 1);
      NestedIsQuotient(d, count, i + 1);
      RunningCases(d, count, i);
      DivBound(Nested(d, count, i + 1), d[i], 2);
    }
  }

  /** The stop of one axis as the iterator computes it from the count that is left for it. */
  function AxisStop(cur: int, b: int, p: int, extent: int, count: nat): int {
    Min(b, if count == 0 then cur + 1 else if count <= extent then cur + count * p else b)
  }

  lemma AxisStopCases(cur: int, a: int, b: int, p: int, count: nat)
    requires p >= 1 && a <= cur < b
    ensures AxisLen(a, b, p) > 0
    ensures var stop := AxisStop(cur, b, p, AxisLen(a, b, p), count);
            && (count == 0 ==> stop == Min(b, cur + 1))
            && (count > 0 ==> stop == Min(b, cur + count * p))
            && (count >= AxisLen(a, b, p) && cur == a ==> stop == b)
  {
    AxisLenStep(a, b, p);
    AxisLenIsCount(a, b, p, count);
  }

  /** Axis by axis, the stops computed with the quotients form the block's stop vector. */
  lemma AxisStopIsBlockStop(cur: seq<int>, a: seq<int>, b: seq<int>, p: seq<int>, count: nat, i: nat)
    requires Vectors(a, b, p) && i < |a| && Readable(Extents(a, b, p), count)
    requires Showing(cur, a, b, p, Running(Extents(a, b, p), count))
    ensures var d := Extents(a, b, p);
            AxisStop(cur[i], b[i], p[i], d[i], Quotient(d, count, i + 1)) ==
            BlockStop(cur, b, p, Running(d, count), Chunk(d, count))[i]
  {
    var d := Extents(a, b, p);
    RunningCases(d, count, i);
    AxisStopCases(cur[i], a[i], b[i], p[i], Quotient(d, count, i + 1));
  }
}
