/** Phase unwrapping, over the reals and over the integers. */
module Unwrap {
  import opened RealArith
  import opened Wrappers
  import opened Arith

  // ----- congruence modulo a real period -----

  function Periods(k: int, period: real): real {
    k as real * period
  }

  lemma PeriodsAdd(k: int, l: int, period: real)
    ensures Periods(k + l, period) == Periods(k, period) + Periods(l, period)
    ensures Periods(-l, period) == -Periods(l, period)
    ensures Periods(0, period) == 0.0 && Periods(1, period) == period
  {
  }

  ghost predicate Apart(x: real, y: real, period: real, k: int) {
    x - y == Periods(k, period)
  }

  /** x and y differ by a whole number of periods. */
  ghost predicate Congruent(x: real, y: real, period: real) {
    exists k: int :: Apart(x, y, period, k)
  }

  lemma CongruentTriangle(x: real, y: real, z: real, period: real)
    requires Congruent(x, y, period) && Congruent(x, z, period)
    ensures Congruent(y, z, period)
  {
    var k :| Apart(x, y, period, k);
    var l :| Apart(x, z, period, l);
    PeriodsAdd(l, -k, period);
    assert Apart(y, z, period, l - k);
  }

  lemma CongruentSum(x: real, x': real, y: real, y': real, period: real)
    requires Congruent(x, x', period) && Congruent(y, y', period)
    ensures Congruent(x + y, x' + y', period)
    ensures Congruent(x - y, x' - y', period)
  {
    var k :| Apart(x, x', period, k);
    var l :| Apart(y, y', period, l);
    PeriodsAdd(k, l, period);
    PeriodsAdd(k, -l, period);
    assert Apart(x + y, x' + y', period, k + l);
    assert Apart(x - y, x' - y', period, k - l);
  }

  /** Congruent numbers less than a period apart are equal. */
  lemma CongruentNear(x: real, y: real, period: real)
    requires period > 0.0 && Congruent(x, y, period)
    requires -period < x - y < period
    ensures x == y
  {
    var k :| Apart(x, y, period, k);
    WholePeriods(k, period);
  }

  lemma {:induction false} WholePeriods(k: int, period: real)
    requires period > 0.0
    ensures k >= 1 ==> Periods(k, period) >= period
    ensures k <= -1 ==> Periods(k, period) <= -period
    ensures k == 0 ==> Periods(k, period) == 0.0
    decreases if k < 0 then -k else k
  {
    PeriodsAdd(0, 1, period);
    if -1 <= k <= 1 {
    } else if k > 1 {
      WholePeriods(k - 1, period);
      PeriodsAdd(k - 1, 1, period);
    } else {
      WholePeriods(k + 1, period);
      PeriodsAdd(k + 1, -1, period);
    }
  }

  function RealMod(x: real, period: real): (m: real)
    requires period > 0.0
  {
    x - Periods((x / period).Floor, period)
  }

  lemma RealModFacts(x: real, period: real)
    requires period > 0.0
    ensures 0.0 <= RealMod(x, period) < period
    ensures Congruent(x, RealMod(x, period), period)
  {
    var q := x / period;
    var k := q.Floor;
    var f := q - k as real;
    FractionOfPeriod(f, period);
    assert q * period == x;
    assert f * period == q * period - k as real * period;
    assert RealMod(x, period) == f * period;
    assert Apart(x, RealMod(x, period), period, k);
  }

  lemma FractionOfPeriod(f: real, period: real)
    requires 0.0 <= f < 1.0 && period > 0.0
    ensures 0.0 <= f * period < period
  {
    ProductPositive(1.0 - f, period);
    DistributeReal(1.0, f, period);
    if f > 0.0 {
      ProductPositive(f, period);
    }
  }

  // ----- one jump -----

  /** The jump congruent to dd of size at most half a period; a jump of exactly half keeps the sign of dd. */
  function Wrapped(dd: real, period: real): (w: real)
    requires period > 0.0
  {
    var high := period / 2.0;
    var low := -high;
    var ddmod := RealMod(dd - low, period) + low;
    if ddmod == low && dd > 0.0 then high else ddmod
  }

  /** w is a jump that unwrapping may produce from the input jump dd. */
  ghost predicate Admissible(w: real, dd: real, period: real) {
    || -period < 2.0 * w < period
    || (2.0 * w == period && dd > 0.0)
    || (2.0 * w == -period && dd <= 0.0)
  }

  lemma WrappedFacts(dd: real, period: real)
    requires period > 0.0
    ensures Congruent(dd, Wrapped(dd, period), period)
    ensures Admissible(Wrapped(dd, period), dd, period)
  {
    var low := -(period / 2.0);
    RealModFacts(dd - low, period);
    var k :| Apart(dd - low, RealMod(dd - low, period), period, k);
    var ddmod := RealMod(dd - low, period) + low;
    assert Apart(dd, ddmod, period, k);
    if ddmod == low && dd > 0.0 {
      PeriodsAdd(k, -1, period);
      assert Apart(dd, -low, period, k - 1);
    }
  }

  /** There is only one such jump. */
  lemma WrappedUnique(dd: real, w: real, period: real)
    requires period > 0.0 && Congruent(dd, w, period) && Admissible(w, dd, period)
    ensures w == Wrapped(dd, period)
  {
    WrappedFacts(dd, period);
    CongruentTriangle(dd, w, Wrapped(dd, period), period);
    CongruentNear(w, Wrapped(dd, period), period);
  }

  lemma CongruentRefl(x: real, period: real)
    ensures Congruent(x, x, period)
  {
    PeriodsAdd(0, 0, period);
    assert Apart(x, x, period, 0);
  }

  function Abs(x: real): real {
    if x < 0.0 then -x else x
  }

  /** The correction applied to one jump: none to jumps below the discontinuity threshold. */
  function Correction(dd: real, discont: real, period: real): real
    requires period > 0.0
  {
    if Abs(dd) < discont then 0.0 else Wrapped(dd, period) - dd
  }

  lemma SmallThreshold(dd: real, discont: real, period: real)
    requires period > 0.0 && discont <= period / 2.0
    ensures Correction(dd, discont, period) == Wrapped(dd, period) - dd
  {
    if Abs(dd) < discont {
      CongruentRefl(dd, period);
      WrappedUnique(dd, dd, period);
    }
  }

  lemma CorrectionIsWhole(dd: real, discont: real, period: real)
    requires period > 0.0
    ensures Congruent(dd, dd + Correction(dd, discont, period), period)
  {
    WrappedFacts(dd, period);
    CongruentRefl(dd, period);
  }

  // ----- whole sequences -----

  function Diff(p: seq<real>): (d: seq<real>)
    ensures |d| == if p == [] then 0 else |p| - 1
  {
    seq(if p == [] then 0 else |p| - 1, i requires 0 <= i < |p| - 1 => p[i + 1] - p[i])
  }

  function CumSum(s: seq<real>): (c: seq<real>)
    ensures |c| == |s|
  {
    if s == [] then []
    else
      var c := CumSum(s[..|s| - 1]);
      c + [(if c == [] then 0.0 else c[|c| - 1]) + s[|s| - 1]]
  }

  lemma {:induction false} CumSumStep(s: seq<real>, i: nat)
    requires i < |s|
    ensures CumSum(s)[i] == (if i == 0 then 0.0 else CumSum(s)[i - 1]) + s[i]
  {
    if i == |s| - 1 {
    } else {
      CumSumStep(s[..|s| - 1], i);
    }
  }

  /** The default threshold is half a period. */
  function Limit(discont: Option<real>, period: real): real {
    if discont.Some? then discont.value else period / 2.0
  }

  /** The corrections of all jumps. */
  function Corrections(dd: seq<real>, limit: real, period: real): (ph: seq<real>)
    requires period > 0.0
    ensures |ph| == |dd| && forall i :: 0 <= i < |dd| ==> ph[i] == Correction(dd[i], limit, period)
  {
    seq(|dd|, i requires 0 <= i < |dd| => Correction(dd[i], limit, period))
  }

  /** The first value, then every later value with the corrections so far added. */
  function Rebuilt(p: seq<real>, ph: seq<real>): (up: seq<real>)
    requires |p| == |ph| + 1
    ensures |up| == |p|
  {
    var cs := CumSum(ph);
    [p[0]] + seq(|cs|, i requires 0 <= i < |cs| => p[i + 1] + cs[i])
  }

  lemma RebuiltJump(p: seq<real>, ph: seq<real>, i: nat)
    requires |p| == |ph| + 1 && 0 < i < |p|
    ensures Rebuilt(p, ph)[i] == Rebuilt(p, ph)[i - 1] + (p[i] - p[i - 1]) + ph[i - 1]
  {
    CumSumStep(ph, i - 1);
  }

  /** unwrap along one axis. */
  function Unwrap(p: seq<real>, discont: Option<real>, period: real): (up: seq<real>)
    requires period > 0.0
    ensures |up| == |p|
  {
    if p == [] then [] else Rebuilt(p, Corrections(Diff(p), Limit(discont, period), period))
  }

  /** The first value is kept, and every jump is corrected on its own. */
  lemma UnwrapJumps(p: seq<real>, discont: Option<real>, period: real)
    requires period > 0.0 && p != []
    ensures var up := Unwrap(p, discont, period);
            && up[0] == p[0]
            && forall i :: 0 < i < |p| ==>
                 up[i] == up[i - 1] + (p[i] - p[i - 1]) + Correction(p[i] - p[i - 1], Limit(discont, period), period)
  {
    var up := Unwrap(p, discont, period);
    var dd := Diff(p);
    var ph := Corrections(dd, Limit(discont, period), period);
    forall i | 0 < i < |p|
      ensures up[i] == up[i - 1] + (p[i] - p[i - 1]) + Correction(p[i] - p[i - 1], Limit(discont, period), period)
    {
      RebuiltJump(p, ph, i);
      assert dd[i - 1] == p[i] - p[i - 1];
    }
  }

  /** With the default threshold or any smaller one, every output jump is the wrapped input jump. */
  lemma UnwrapWraps(p: seq<real>, discont: Option<real>, period: real)
    requires period > 0.0 && p != [] && (discont.Some? ==> discont.value <= period / 2.0)
    ensures var up := Unwrap(p, discont, period);
            && up[0] == p[0]
            && forall i :: 0 < i < |p| ==> up[i] == up[i - 1] + Wrapped(p[i] - p[i - 1], period)
  {
    UnwrapJumps(p, discont, period);
    JumpsWrap(p, Unwrap(p, discont, period), Limit(discont, period), period);
  }

  lemma JumpsWrap(p: seq<real>, up: seq<real>, limit: real, period: real)
    requires period > 0.0 && limit <= period / 2.0 && |up| == |p|
    requires forall i :: 0 < i < |p| ==>
               up[i] == up[i - 1] + (p[i] - p[i - 1]) + Correction(p[i] - p[i - 1], limit, period)
    ensures forall i :: 0 < i < |p| ==> up[i] == up[i - 1] + Wrapped(p[i] - p[i - 1], period)
  {
    forall i | 0 < i < |p|
      ensures up[i] == up[i - 1] + Wrapped(p[i] - p[i - 1], period)
    {
      SmallThreshold(p[i] - p[i - 1], limit, period);
    }
  }

  /** Sequences with the same first value and the same jumps are equal. */
  lemma {:induction false} SameJumps(x: seq<real>, y: seq<real>, shift: real, n: nat)
    requires |x| == |y| && n < |x|
    requires x[0] == y[0] + shift
    requires forall i :: 0 < i < |x| ==> x[i] - x[i - 1] == y[i] - y[i - 1]
    ensures x[n] == y[n] + shift
  {
    if n == 0 {
    } else {
      SameJumps(x, y, shift, n - 1);
    }
  }

  /** The corrected jump to each value from the one before. */
  ghost function Jumps(p: seq<real>, period: real): (d: seq<real>)
    requires period > 0.0
    ensures |d| == |p| && forall i :: 0 < i < |p| ==> d[i] == Wrapped(p[i] - p[i - 1], period)
  {
    seq(|p|, i requires 0 <= i < |p| => if i == 0 then 0.0 else Wrapped(p[i] - p[i - 1], period))
  }

  /** Every value is the one before plus its jump. */
  ghost predicate Sums(x: seq<real>, d: seq<real>) {
    |x| == |d| && forall i :: 0 < i < |d| ==> x[i] == x[i - 1] + d[i]
  }

  lemma UnwrapSums(p: seq<real>, discont: Option<real>, period: real)
    requires period > 0.0 && p != [] && (discont.Some? ==> discont.value <= period / 2.0)
    ensures Sums(Unwrap(p, discont, period), Jumps(p, period)) && Unwrap(p, discont, period)[0] == p[0]
  {
    UnwrapWraps(p, discont, period);
  }

  lemma {:induction false} SameSums(x: seq<real>, y: seq<real>, d: seq<real>)
    requires Sums(x, d) && Sums(y, d) && d != [] && x[0] == y[0]
    ensures x == y
  {
    var n := |x| - 1;
    if n == 0 {
    } else {
      SameSums(x[..n], y[..n], d[..n]);
      assert x[n - 1] == x[..n][n - 1] == y[..n][n - 1] == y[n - 1];
      assert x == x[..n] + [x[n]] && y == y[..n] + [y[n]];
    }
  }

  /** A threshold below half a period gives the default result. */
  lemma ThresholdIrrelevant(p: seq<real>, discont: real, period: real)
    requires period > 0.0 && discont <= period / 2.0
    ensures Unwrap(p, Some(discont), period) == Unwrap(p, None, period)
  {
    if p != [] {
      var x, y := Unwrap(p, Some(discont), period), Unwrap(p, None, period);
      UnwrapSums(p, Some(discont), period);
      UnwrapSums(p, None, period);
      SameSums(x, y, Jumps(p, period));
    }
  }

  lemma {:induction false} CongruentJumps(x: seq<real>, y: seq<real>, period: real, n: nat)
    requires |x| == |y| && n < |x| && x[0] == y[0]
    requires forall i :: 0 < i < |x| ==> Congruent(x[i] - x[i - 1], y[i] - y[i - 1], period)
    ensures Congruent(x[n], y[n], period)
    decreases n
  {
    if n == 0 {
      CongruentRefl(x[0], period);
    } else {
      CongruentJumps(x, y, period, n - 1);
      CongruentSum(x[n - 1], y[n - 1], x[n] - x[n - 1], y[n] - y[n - 1], period);
    }
  }

  /** Every output is congruent to its input, whatever the threshold. */
  lemma UnwrapCongruent(p: seq<real>, discont: Option<real>, period: real, n: nat)
    requires period > 0.0 && n < |p|
    ensures Congruent(p[n], Unwrap(p, discont, period)[n], period)
  {
    UnwrapJumps(p, discont, period);
    JumpsAreWhole(p, Unwrap(p, discont, period), Limit(discont, period), period, n);
  }

  lemma JumpsAreWhole(p: seq<real>, up: seq<real>, limit: real, period: real, n: nat)
    requires period > 0.0 && |up| == |p| && n < |p| && up[0] == p[0]
    requires forall i :: 0 < i < |p| ==>
               up[i] == up[i - 1] + (p[i] - p[i - 1]) + Correction(p[i] - p[i - 1], limit, period)
    ensures Congruent(p[n], up[n], period)
  {
    forall i | 0 < i < |p|
      ensures Congruent(p[i] - p[i - 1], up[i] - up[i - 1], period)
    {
      CorrectionIsWhole(p[i] - p[i - 1], limit, period);
    }
    CongruentJumps(p, up, period, n);
  }

  /** Every output jump is at most half a period, and a jump of exactly half goes the way of the input jump. */
  lemma UnwrapSmooth(p: seq<real>, discont: Option<real>, period: real, i: nat)
    requires period > 0.0 && 0 < i < |p| && (discont.Some? ==> discont.value <= period / 2.0)
    ensures var up := Unwrap(p, discont, period);
            Admissible(up[i] - up[i - 1], p[i] - p[i - 1], period)
  {
    var up := Unwrap(p, discont, period);
    UnwrapWraps(p, discont, period);
    JumpAdmissible(up[i], up[i - 1], p[i] - p[i - 1], period);
  }

  lemma JumpAdmissible(now: real, before: real, dd: real, period: real)
    requires period > 0.0 && now == before + Wrapped(dd, period)
    ensures Admissible(now - before, dd, period)
  {
    WrappedFacts(dd, period);
  }

  /** A jump below the given threshold is kept; any other one is brought within half a period. */
  lemma UnwrapThreshold(p: seq<real>, discont: real, period: real, i: nat)
    requires period > 0.0 && 0 < i < |p|
    ensures var up, dd := Unwrap(p, Some(discont), period), p[i] - p[i - 1];
            && up[0] == p[0]
            && (-discont < dd < discont ==> up[i] - up[i - 1] == dd)
            && (!(-discont < dd < discont) ==> Admissible(up[i] - up[i - 1], dd, period))
  {
    var up := Unwrap(p, Some(discont), period);
    UnwrapJumps(p, Some(discont), period);
    OneJump(up[i], up[i - 1], p[i] - p[i - 1], discont, period);
  }

  lemma OneJump(now: real, before: real, dd: real, discont: real, period: real)
    requires period > 0.0 && now == before + dd + Correction(dd, discont, period)
    ensures -discont < dd < discont ==> now - before == dd
    ensures !(-discont < dd < discont) ==> now - before == Wrapped(dd, period) && Admissible(now - before, dd, period)
  {
    WrappedFacts(dd, period);
  }

  /** The jump to p[i] is not below the threshold or at most half a period. */
  ghost predicate JumpFits(p: seq<real>, i: nat, discont: real, period: real)
    requires 0 < i < |p|
  {
    -discont < p[i] - p[i - 1] < discont ==> -period <= 2.0 * (p[i] - p[i - 1]) <= period
  }

  ghost predicate KeptFit(p: seq<real>, discont: real, period: real) {
    forall i :: 0 < i < |p| ==> JumpFits(p, i, discont, period)
  }

  /** A threshold agrees with the default one exactly if no jump it keeps is larger than half a period. */
  lemma ThresholdDefaultIff(p: seq<real>, discont: real, period: real)
    requires period > 0.0
    ensures Unwrap(p, Some(discont), period) == Unwrap(p, None, period) <==>
            KeptFit(p, discont, period)
  {
    if p != [] {
      if Unwrap(p, Some(discont), period) == Unwrap(p, None, period) {
        forall i | 0 < i < |p|
          ensures JumpFits(p, i, discont, period)
        {
          UnwrapThreshold(p, discont, period, i);
          UnwrapSmooth(p, None, period, i);
        }
      }
      if KeptFit(p, discont, period) {
        KeptJumpsWrapped(p, Unwrap(p, Some(discont), period), discont, period);
        UnwrapSums(p, None, period);
        SameSums(Unwrap(p, Some(discont), period), Unwrap(p, None, period), Jumps(p, period));
      }
    }
  }

  lemma KeptJumpsWrapped(p: seq<real>, up: seq<real>, discont: real, period: real)
    requires period > 0.0 && p != [] && up == Unwrap(p, Some(discont), period)
    requires KeptFit(p, discont, period)
    ensures up[0] == p[0] && Sums(up, Jumps(p, period))
  {
    forall i | 0 < i < |p|
      ensures up[i] == up[i - 1] + Wrapped(p[i] - p[i - 1], period)
    {
      assert JumpFits(p, i, discont, period);
      KeptJumpAt(p, up, discont, period, i);
    }
    UnwrapFirst(p, Some(discont), period);
  }

  lemma UnwrapFirst(p: seq<real>, discont: Option<real>, period: real)
    requires period > 0.0 && p != []
    ensures Unwrap(p, discont, period)[0] == p[0]
  {
  }

  lemma KeptJumpAt(p: seq<real>, up: seq<real>, discont: real, period: real, i: nat)
    requires period > 0.0 && 0 < i < |p| && up == Unwrap(p, Some(discont), period)
    requires JumpFits(p, i, discont, period)
    ensures up[i] == up[i - 1] + Wrapped(p[i] - p[i - 1], period)
  {
    UnwrapJumps(p, Some(discont), period);
    KeptJump(up[i], up[i - 1], p[i] - p[i - 1], discont, period);
  }

  lemma KeptJump(now: real, before: real, dd: real, discont: real, period: real)
    requires period > 0.0 && now == before + dd + Correction(dd, discont, period)
    requires -discont < dd < discont ==> -period <= 2.0 * dd <= period
    ensures now == before + Wrapped(dd, period)
  {
    OneJump(now, before, dd, discont, period);
    KeptIsWrapped(dd, period);
  }

  lemma KeptIsWrapped(dd: real, period: real)
    requires period > 0.0
    ensures -period <= 2.0 * dd <= period ==> Wrapped(dd, period) == dd
  {
    if -period <= 2.0 * dd <= period {
      CongruentRefl(dd, period);
      WrappedUnique(dd, dd, period);
    }
  }

  /** Unwrapping an unwrapped sequence changes nothing. */
  lemma UnwrapIdempotent(p: seq<real>, period: real)
    requires period > 0.0
    ensures Unwrap(Unwrap(p, None, period), None, period) == Unwrap(p, None, period)
  {
    if p != [] {
      var up := Unwrap(p, None, period);
      UnwrapWraps(p, None, period);
      UnwrapWraps(up, None, period);
      WrapsOnce(p, up, Unwrap(up, None, period), period);
    }
  }

  /** Jumps that are wrapped already are not changed again. */
  lemma WrapsOnce(p: seq<real>, up: seq<real>, again: seq<real>, period: real)
    requires period > 0.0 && |p| == |up| == |again| > 0 && again[0] == up[0]
    requires forall i :: 0 < i < |p| ==> up[i] == up[i - 1] + Wrapped(p[i] - p[i - 1], period)
    requires forall i :: 0 < i < |p| ==> again[i] == again[i - 1] + Wrapped(up[i] - up[i - 1], period)
    ensures again == up
  {
    forall i | 0 < i < |p|
      ensures again[i] - again[i - 1] == up[i] - up[i - 1]
    {
      JumpSettles(p[i] - p[i - 1], up[i] - up[i - 1], period);
    }
    forall n | 0 <= n < |p|
      ensures again[n] == up[n]
    {
      SameJumps(again, up, 0.0, n);
    }
  }

  lemma JumpSettles(dd: real, jump: real, period: real)
    requires period > 0.0 && jump == Wrapped(dd, period)
    ensures Wrapped(jump, period) == jump
  {
    WrappedFacts(dd, period);
    CongruentRefl(jump, period);
    WrappedUnique(jump, jump, period);
  }

  /** The jumps of the true signal are the ones unwrapping chooses for the wrapped input. */
  ghost predicate Recoverable(s: seq<real>, p: seq<real>, period: real)
    requires |s| == |p|
  {
    forall i :: 0 < i < |p| ==> Admissible(s[i] - s[i - 1], p[i] - p[i - 1], period)
  }

  /**
    If p is the true signal s with whole periods added or removed anywhere, unwrapping p gives s
    back up to the offset of the first value, if and only if every jump of s is below half a
    period, or exactly half a period in the direction of the jump of p.
   */
  lemma UnwrapRecovers(s: seq<real>, p: seq<real>, period: real)
    requires period > 0.0 && |s| == |p| > 0
    requires forall i :: 0 <= i < |p| ==> Congruent(p[i], s[i], period)
    ensures Recoverable(s, p, period)
       <==> forall i :: 0 <= i < |p| ==> Unwrap(p, None, period)[i] == s[i] + (p[0] - s[0])
  {
    var up := Unwrap(p, None, period);
    UnwrapWraps(p, None, period);
    if Recoverable(s, p, period) {
      Recovered(s, p, up, period);
    }
    if forall i :: 0 <= i < |p| ==> up[i] == s[i] + (p[0] - s[0]) {
      OnlyRecoverable(s, p, up, period);
    }
  }

  lemma Recovered(s: seq<real>, p: seq<real>, up: seq<real>, period: real)
    requires period > 0.0 && |s| == |p| == |up| > 0 && up[0] == p[0] && Recoverable(s, p, period)
    requires forall i :: 0 <= i < |p| ==> Congruent(p[i], s[i], period)
    requires forall i :: 0 < i < |p| ==> up[i] == up[i - 1] + Wrapped(p[i] - p[i - 1], period)
    ensures forall i :: 0 <= i < |p| ==> up[i] == s[i] + (p[0] - s[0])
  {
    forall i | 0 < i < |p|
      ensures up[i] - up[i - 1] == s[i] - s[i - 1]
    {
      CongruentSum(p[i], s[i], p[i - 1], s[i - 1], period);
      WrappedUnique(p[i] - p[i - 1], s[i] - s[i - 1], period);
    }
    forall n | 0 <= n < |p|
      ensures up[n] == s[n] + (p[0] - s[0])
    {
      SameJumps(up, s, p[0] - s[0], n);
    }
  }

  lemma OnlyRecoverable(s: seq<real>, p: seq<real>, up: seq<real>, period: real)
    requires period > 0.0 && |s| == |p| == |up| > 0
    requires forall i :: 0 < i < |p| ==> up[i] == up[i - 1] + Wrapped(p[i] - p[i - 1], period)
    requires forall i :: 0 <= i < |p| ==> up[i] == s[i] + (p[0] - s[0])
    ensures Recoverable(s, p, period)
  {
    forall i | 0 < i < |p|
      ensures Admissible(s[i] - s[i - 1], p[i] - p[i - 1], period)
    {
      assert up[i - 1] == s[i - 1] + (p[0] - s[0]);
      JumpAdmissible(up[i], up[i - 1], p[i] - p[i - 1], period);
    }
  }

  // ----- the integer branch -----

  /** The wrapped jump as the integer branch computes it; only even periods have ambiguous boundaries. */
  function IntWrapped(dd: int, period: int): (w: int)
    requires period > 0
  {
    var high := period / 2;
    var low := -high;
    var ddmod := (dd - low) % period + low;
    if period % 2 == 0 && ddmod == low && dd > 0 then high else ddmod
  }

  function IntCorrection(dd: int, discont: real, period: int): int
    requires period > 0
  {
    if Abs(dd as real) < discont then 0 else IntWrapped(dd, period) - dd
  }

  function IntDiff(p: seq<int>): (d: seq<int>)
    ensures |d| == if p == [] then 0 else |p| - 1
  {
    seq(if p == [] then 0 else |p| - 1, i requires 0 <= i < |p| - 1 => p[i + 1] - p[i])
  }

  function IntCumSum(s: seq<int>): (c: seq<int>)
    ensures |c| == |s|
  {
    if s == [] then []
    else
      var c := IntCumSum(s[..|s| - 1]);
      c + [(if c == [] then 0 else c[|c| - 1]) + s[|s| - 1]]
  }

  function IntRebuilt(p: seq<int>, ph: seq<int>): (up: seq<int>)
    requires |p| == |ph| + 1
    ensures |up| == |p|
  {
    var cs := IntCumSum(ph);
    [p[0]] + seq(|cs|, i requires 0 <= i < |cs| => p[i + 1] + cs[i])
  }

  function IntCorrections(dd: seq<int>, limit: real, period: int): (ph: seq<int>)
    requires period > 0
    ensures |ph| == |dd| && forall i :: 0 <= i < |dd| ==> ph[i] == IntCorrection(dd[i], limit, period)
  {
    seq(|dd|, i requires 0 <= i < |dd| => IntCorrection(dd[i], limit, period))
  }

  /** unwrap when both the input and the period are integers. */
  function IntUnwrap(p: seq<int>, discont: Option<real>, period: int): (up: seq<int>)
    requires period > 0
    ensures |up| == |p|
  {
    if p == [] then [] else IntRebuilt(p, IntCorrections(IntDiff(p), Limit(discont, period as real), period))
  }

  function Reals(p: seq<int>): (r: seq<real>)
    ensures |r| == |p| && forall i :: 0 <= i < |p| ==> r[i] == p[i] as real
  {
    seq(|p|, i requires 0 <= i < |p| => p[i] as real)
  }

  /** Floor division of an odd period and the missing tie rule make no difference. */
  lemma IntWrappedAgrees(dd: int, period: int)
    requires period > 0
    ensures IntWrapped(dd, period) as real == Wrapped(dd as real, period as real)
  {
    var w := IntWrapped(dd, period);
    var low := -(period / 2);
    DivModDef(dd - low, period);
    var k := (dd - low) / period;
    var ddmod := (dd - low) % period + low;
    assert dd - ddmod == k * period;
    IntPeriods(dd, ddmod, period, k);
    if w != ddmod {
      Distribute(k, -1, period);
      IntPeriods(dd, w, period, k - 1);
    }
    WrappedUnique(dd as real, w as real, period as real);
  }

  lemma IntPeriods(x: int, y: int, period: int, k: int)
    requires x - y == k * period
    ensures Congruent(x as real, y as real, period as real)
  {
    assert (k * period) as real == Periods(k, period as real);
    assert Apart(x as real, y as real, period as real, k);
  }

  lemma CorrectionAgrees(dd: int, limit: real, period: int)
    requires period > 0
    ensures Correction(dd as real, limit, period as real) == IntCorrection(dd, limit, period) as real
  {
    IntWrappedAgrees(dd, period);
  }

  lemma CorrectionsAgree(dd: seq<int>, limit: real, period: int)
    requires period > 0
    ensures Corrections(Reals(dd), limit, period as real) == Reals(IntCorrections(dd, limit, period))
  {
    forall i | 0 <= i < |dd|
      ensures Correction(dd[i] as real, limit, period as real) == IntCorrection(dd[i], limit, period) as real
    {
      CorrectionAgrees(dd[i], limit, period);
    }
  }

  lemma {:induction false} CumSumAgrees(s: seq<int>)
    ensures CumSum(Reals(s)) == Reals(IntCumSum(s))
  {
    if s == [] {
    } else {
      assert Reals(s)[..|s| - 1] == Reals(s[..|s| - 1]);
      CumSumAgrees(s[..|s| - 1]);
    }
  }

  lemma RebuiltAgrees(p: seq<int>, ph: seq<int>)
    requires |p| == |ph| + 1
    ensures Rebuilt(Reals(p), Reals(ph)) == Reals(IntRebuilt(p, ph))
  {
    CumSumAgrees(ph);
  }

  /** The integer branch computes what the floating-point branch would, in exact arithmetic. */
  lemma IntUnwrapAgrees(p: seq<int>, discont: Option<real>, period: int)
    requires period > 0
    ensures Reals(IntUnwrap(p, discont, period)) == Unwrap(Reals(p), discont, period as real)
  {
    if p != [] {
      var limit := Limit(discont, period as real);
      assert Diff(Reals(p)) == Reals(IntDiff(p));
      CorrectionsAgree(IntDiff(p), limit, period);
      RebuiltAgrees(p, IntCorrections(IntDiff(p), limit, period));
    }
  }

  /** Admissible, for integers. */
  ghost predicate IntAdmissible(w: int, dd: int, period: int) {
    || -period < 2 * w < period
    || (2 * w == period && dd > 0)
    || (2 * w == -period && dd <= 0)
  }

  ghost predicate IntRecoverable(s: seq<int>, p: seq<int>, period: int)
    requires |s| == |p|
  {
    forall i :: 0 < i < |p| ==> IntAdmissible(s[i] - s[i - 1], p[i] - p[i - 1], period)
  }

  lemma RecoverableAgrees(s: seq<int>, p: seq<int>, period: int)
    requires |s| == |p|
    ensures IntRecoverable(s, p, period) <==> Recoverable(Reals(s), Reals(p), period as real)
  {
    forall i | 0 < i < |p|
      ensures IntAdmissible(s[i] - s[i - 1], p[i] - p[i - 1], period)
         <==> Admissible(Reals(s)[i] - Reals(s)[i - 1], Reals(p)[i] - Reals(p)[i - 1], period as real)
    {
      assert Reals(s)[i] - Reals(s)[i - 1] == (s[i] - s[i - 1]) as real;
      assert Reals(p)[i] - Reals(p)[i - 1] == (p[i] - p[i - 1]) as real;
    }
  }

  /** The exact recovery condition for integer signals, for odd and even periods alike. */
  lemma IntUnwrapRecovers(s: seq<int>, p: seq<int>, period: int)
    requires period > 0 && |s| == |p| > 0
    requires forall i :: 0 <= i < |p| ==> (p[i] - s[i]) % period == 0
    ensures IntRecoverable(s, p, period)
       <==> forall i :: 0 <= i < |p| ==> IntUnwrap(p, None, period)[i] == s[i] + (p[0] - s[0])
  {
    CongruentReals(s, p, period);
    RecoversAsReals(s, p, period);
  }

  lemma CongruentReals(s: seq<int>, p: seq<int>, period: int)
    requires period > 0 && |s| == |p|
    requires forall i :: 0 <= i < |p| ==> (p[i] - s[i]) % period == 0
    ensures forall i :: 0 <= i < |p| ==> Congruent(Reals(p)[i], Reals(s)[i], period as real)
  {
    forall i | 0 <= i < |p|
      ensures Congruent(Reals(p)[i], Reals(s)[i], period as real)
    {
      DivModDef(p[i] - s[i], period);
      IntPeriods(p[i], s[i], period, (p[i] - s[i]) / period);
    }
  }

  lemma RecoversAsReals(s: seq<int>, p: seq<int>, period: int)
    requires period > 0 && |s| == |p| > 0
    requires forall i :: 0 <= i < |p| ==> Congruent(Reals(p)[i], Reals(s)[i], period as real)
    ensures IntRecoverable(s, p, period)
       <==> forall i :: 0 <= i < |p| ==> IntUnwrap(p, None, period)[i] == s[i] + (p[0] - s[0])
  {
    UnwrapRecovers(Reals(s), Reals(p), period as real);
    RecoverableAgrees(s, p, period);
    IntUnwrapAgrees(p, None, period);
    SameShift(s, p, IntUnwrap(p, None, period));
  }

  /** An integer list is another one up to an offset exactly if the same holds of the reals. */
  lemma SameShift(s: seq<int>, p: seq<int>, up: seq<int>)
    requires |s| == |p| == |up| > 0
    ensures (forall i :: 0 <= i < |p| ==> up[i] == s[i] + (p[0] - s[0]))
       <==> forall i :: 0 <= i < |p| ==> Reals(up)[i] == Reals(s)[i] + (Reals(p)[0] - Reals(s)[0])
  {
    forall i | 0 <= i < |p|
      ensures up[i] == s[i] + (p[0] - s[0]) <==> Reals(up)[i] == Reals(s)[i] + (Reals(p)[0] - Reals(s)[0])
    {
    }
  }

  lemma CongruentInts(x: int, y: int, period: int)
    requires period > 0 && Congruent(x as real, y as real, period as real)
    ensures (y - x) % period == 0
  {
    var k :| Apart(x as real, y as real, period as real, k);
    assert Periods(k, period as real) == (k * period) as real;
    Distribute(k, -k, period);
    DivModUnique(y - x, -k, 0, period);
  }

  /** Every integer output is congruent to its input. */
  lemma IntUnwrapCongruent(p: seq<int>, discont: Option<real>, period: int, i: nat)
    requires period > 0 && i < |p|
    ensures (IntUnwrap(p, discont, period)[i] - p[i]) % period == 0
  {
    var up := IntUnwrap(p, discont, period);
    IntUnwrapAgrees(p, discont, period);
    UnwrapCongruent(Reals(p), discont, period as real, i);
    assert Reals(up)[i] == up[i] as real;
    CongruentInts(p[i], up[i], period);
  }

  /** Every integer output jump is at most half a period, with ties going the way of the input jump. */
  lemma IntUnwrapSmooth(p: seq<int>, discont: Option<real>, period: int, i: nat)
    requires period > 0 && 0 < i < |p| && (discont.Some? ==> discont.value <= period as real / 2.0)
    ensures var up := IntUnwrap(p, discont, period);
            up[0] == p[0] && IntAdmissible(up[i] - up[i - 1], p[i] - p[i - 1], period)
  {
    var up := IntUnwrap(p, discont, period);
    IntUnwrapAgrees(p, discont, period);
    UnwrapSmooth(Reals(p), discont, period as real, i);
    AdmissibleAgrees(up[i] - up[i - 1], p[i] - p[i - 1], period);
    assert Reals(up)[i] - Reals(up)[i - 1] == (up[i] - up[i - 1]) as real;
    assert Reals(p)[i] - Reals(p)[i - 1] == (p[i] - p[i - 1]) as real;
  }

  /** A threshold of at most half a period gives the default result for integers, too. */
  lemma IntThresholdIrrelevant(p: seq<int>, discont: real, period: int)
    requires period > 0 && discont <= period as real / 2.0
    ensures IntUnwrap(p, Some(discont), period) == IntUnwrap(p, None, period)
  {
    IntUnwrapAgrees(p, Some(discont), period);
    IntUnwrapAgrees(p, None, period);
    ThresholdIrrelevant(Reals(p), discont, period as real);
    SameReals(IntUnwrap(p, Some(discont), period), IntUnwrap(p, None, period));
  }

  /** An integer jump below the given threshold is kept; any other one is brought within half a period. */
  lemma IntUnwrapThreshold(p: seq<int>, discont: real, period: int, i: nat)
    requires period > 0 && 0 < i < |p|
    ensures var up, dd := IntUnwrap(p, Some(discont), period), p[i] - p[i - 1];
            && up[0] == p[0]
            && (-discont < dd as real < discont ==> up[i] - up[i - 1] == dd)
            && (!(-discont < dd as real < discont) ==> IntAdmissible(up[i] - up[i - 1], dd, period))
  {
    var up := IntUnwrap(p, Some(discont), period);
    IntUnwrapAgrees(p, Some(discont), period);
    UnwrapThreshold(Reals(p), discont, period as real, i);
    JumpAsReal(up, i);
    JumpAsReal(p, i);
    AdmissibleAgrees(up[i] - up[i - 1], p[i] - p[i - 1], period);
  }

  lemma JumpAsReal(p: seq<int>, i: nat)
    requires 0 < i < |p|
    ensures Reals(p)[i] - Reals(p)[i - 1] == (p[i] - p[i - 1]) as real
  {
  }

  ghost predicate IntJumpFits(p: seq<int>, i: nat, discont: real, period: int)
    requires 0 < i < |p|
  {
    -discont < (p[i] - p[i - 1]) as real < discont ==> -period <= 2 * (p[i] - p[i - 1]) <= period
  }

  ghost predicate IntKeptFit(p: seq<int>, discont: real, period: int) {
    forall i :: 0 < i < |p| ==> IntJumpFits(p, i, discont, period)
  }

  /** For integers, too, a threshold agrees with the default exactly if no jump it keeps exceeds half a period. */
  lemma IntThresholdDefaultIff(p: seq<int>, discont: real, period: int)
    requires period > 0
    ensures IntUnwrap(p, Some(discont), period) == IntUnwrap(p, None, period) <==>
            IntKeptFit(p, discont, period)
  {
    SameThroughReals(p, discont, period);
    ThresholdDefaultIff(Reals(p), discont, period as real);
    KeptFitAgrees(p, discont, period);
  }

  lemma KeptFitAgrees(p: seq<int>, discont: real, period: int)
    ensures IntKeptFit(p, discont, period) <==> KeptFit(Reals(p), discont, period as real)
  {
    if KeptFit(Reals(p), discont, period as real) {
      forall i | 0 < i < |p|
        ensures IntJumpFits(p, i, discont, period)
      {
        JumpFitsAgrees(p, i, discont, period);
      }
    } else if IntKeptFit(p, discont, period) {
      var i :| 0 < i < |p| && !JumpFits(Reals(p), i, discont, period as real);
      JumpFitsAgrees(p, i, discont, period);
    }
  }

  lemma SameThroughReals(p: seq<int>, discont: real, period: int)
    requires period > 0
    ensures IntUnwrap(p, Some(discont), period) == IntUnwrap(p, None, period)
       <==> Unwrap(Reals(p), Some(discont), period as real) == Unwrap(Reals(p), None, period as real)
  {
    IntUnwrapAgrees(p, Some(discont), period);
    IntUnwrapAgrees(p, None, period);
    if Reals(IntUnwrap(p, Some(discont), period)) == Reals(IntUnwrap(p, None, period)) {
      SameReals(IntUnwrap(p, Some(discont), period), IntUnwrap(p, None, period));
    }
  }

  lemma JumpFitsAgrees(p: seq<int>, i: nat, discont: real, period: int)
    requires 0 < i < |p|
    ensures IntJumpFits(p, i, discont, period) <==> JumpFits(Reals(p), i, discont, period as real)
  {
    JumpAsReal(p, i);
    TwiceAsReal(p[i] - p[i - 1], period);
  }

  lemma TwiceAsReal(dd: int, period: int)
    ensures -period <= 2 * dd <= period <==> -(period as real) <= 2.0 * (dd as real) <= period as real
  {
  }

  lemma AdmissibleAgrees(w: int, dd: int, period: int)
    ensures IntAdmissible(w, dd, period) <==> Admissible(w as real, dd as real, period as real)
  {
  }

  /** Unwrapping integers twice is unwrapping them once. */
  lemma IntUnwrapIdempotent(p: seq<int>, period: int)
    requires period > 0
    ensures IntUnwrap(IntUnwrap(p, None, period), None, period) == IntUnwrap(p, None, period)
  {
    var up := IntUnwrap(p, None, period);
    IntUnwrapAgrees(p, None, period);
    IntUnwrapAgrees(up, None, period);
    UnwrapIdempotent(Reals(p), period as real);
    SameReals(IntUnwrap(up, None, period), up);
  }

  lemma SameReals(s: seq<int>, t: seq<int>)
    requires Reals(s) == Reals(t)
    ensures s == t
  {
    assert forall i :: 0 <= i < |s| ==> Reals(s)[i] == Reals(t)[i];
  }
}
