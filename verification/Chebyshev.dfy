/** Clenshaw evaluation of a Chebyshev series, over the reals. */
module Chebyshev {
  import opened RealArith
  import Polynomial

  /** The Chebyshev polynomial of the first kind of degree k, at x / 2. */
  function T(k: nat, x: real): real {
    if k == 0 then 1.0 else if k == 1 then x / 2.0 else Times(x, T(k - 1, x)) - T(k - 2, x)
  }

  lemma PowerStep(z: real, w: real, p: real, q: real)
    requires z * w == 1.0
    ensures Times(z + w, Times(z, p) + Times(w, q)) ==
            Times(z, Times(z, p)) + Times(w, Times(w, q)) + p + q
  {
    assert z * (w * q) == (z * w) * q == q;
    assert w * (z * p) == (z * w) * p == p;
  }

  /**
    The property that defines the polynomial: at x = z + 1/z it is the mean of z^k and 1/z^k.
    (For z on the unit circle these are cos(k a) at x = 2 cos a.)
   */
  lemma {:induction false} FirstKindIsMeanOfPowers(k: nat, z: real, w: real)
    requires z * w == 1.0
    ensures 2.0 * T(k, z + w) == Power(z, k) + Power(w, k)
    decreases k
  {
    if k == 1 {
      assert Times(z, 1.0) == z && Times(w, 1.0) == w;
      assert Power(z, 1) == Times(z, Power(z, 0)) && Power(w, 1) == Times(w, Power(w, 0));
    } else if k >= 2 {
      FirstKindIsMeanOfPowers(k - 1, z, w);
      FirstKindIsMeanOfPowers(k - 2, z, w);
      PowerStep(z, w, Power(z, k - 2), Power(w, k - 2));
      TwiceProduct(z + w, T(k - 1, z + w));
    }
  }

  lemma TwiceProduct(a: real, b: real)
    ensures 2.0 * Times(a, b) == Times(a, 2.0 * b)
  {
  }

  /** The Chebyshev polynomial of the second kind of degree k - 1, at x / 2. */
  function U(k: nat, x: real): real {
    if k == 0 then 0.0 else if k == 1 then 1.0 else Times(x, U(k - 1, x)) - U(k - 2, x)
  }

  /** The sum of vals[i] * T(n - 1 - i) with the coefficient of T(0) halved, n the number of coefficients. */
  function Series(vals: seq<real>, x: real): real {
    if vals == [] then 0.0
    else if |vals| == 1 then Times(vals[0], T(0, x)) / 2.0
    else Times(vals[0], T(|vals| - 1, x)) + Series(vals[1..], x)
  }

  /**
    The series at x = z + 1/z: half the sum of the polynomial with these coefficients at z and at
    1/z, less half the last coefficient.
   */
  lemma {:induction false} SeriesMeans(vals: seq<real>, z: real, w: real)
    requires z * w == 1.0 && vals != []
    ensures 2.0 * Series(vals, z + w)
         == Polynomial.Eval(vals, z) + Polynomial.Eval(vals, w) - vals[|vals| - 1]
  {
    if |vals| == 1 {
      assert vals[..0] == [];
      OneTerm(vals[0], z, w);
    } else {
      var n, a := |vals| - 1, vals[0];
      SeriesMeans(vals[1..], z, w);
      FirstKindIsMeanOfPowers(n, z, w);
      Polynomial.EvalHead(vals, z);
      Polynomial.EvalHead(vals, w);
      LeadingTerm(a, T(n, z + w), Power(z, n), Power(w, n));
    }
  }

  lemma OneTerm(a: real, z: real, w: real)
    ensures 2.0 * (Times(a, 1.0) / 2.0) == a
    ensures Times(0.0, z) + a == a && Times(0.0, w) + a == a
  {
  }

  lemma LeadingTerm(a: real, t: real, u: real, v: real)
    requires 2.0 * t == u + v
    ensures 2.0 * Times(a, t) == Times(a, u) + Times(a, v)
  {
    assert a * (u + v) == a * u + a * v;
    assert a * (2.0 * t) == 2.0 * (a * t);
  }

  /** The three-term recurrence of the loop. */
  function Clenshaw(vals: seq<real>, x: real): real {
    if vals == [] then 0.0
    else if |vals| == 1 then vals[0]
    else Times(x, Clenshaw(vals[..|vals| - 1], x)) - Clenshaw(vals[..|vals| - 2], x) + vals[|vals| - 1]
  }

  /** One step of the recurrence on two values that split off a multiple of a. */
  lemma StepSplits(x: real, a: real, u: real, u1: real, u2: real, whole: real, whole1: real, whole2: real,
                   rest: real, rest1: real, rest2: real, last: real)
    requires whole1 == Times(a, u1) + rest1 && whole2 == Times(a, u2) + rest2
    requires u == Times(x, u1) - u2
    requires whole == Times(x, whole1) - whole2 + last
    requires rest == Times(x, rest1) - rest2 + last
    ensures whole == Times(a, u) + rest
  {
    assert x * whole1 == x * (a * u1) + x * rest1;
    assert a * u == a * (x * u1) - a * u2;
  }

  /** The recurrence is linear: the leading coefficient contributes a multiple of U. */
  lemma {:induction false} ClenshawHead(vals: seq<real>, x: real)
    requires vals != []
    ensures Clenshaw(vals, x) == Times(vals[0], U(|vals|, x)) + Clenshaw(vals[1..], x)
    decreases |vals|
  {
    var n := |vals|;
    if n == 1 {
      assert U(1, x) == 1.0;
    } else if n == 2 {
      ClenshawPair(vals, x);
    } else {
      var init, init2, tail := vals[..n - 1], vals[..n - 2], vals[1..];
      ClenshawHead(init, x);
      ClenshawHead(init2, x);
      assert init[1..] == tail[..n - 2] && init2[1..] == tail[..n - 3];
      StepSplits(x, vals[0], U(n, x), U(n - 1, x), U(n - 2, x), Clenshaw(vals, x), Clenshaw(init, x),
                 Clenshaw(init2, x), Clenshaw(tail, x), Clenshaw(tail[..n - 2], x), Clenshaw(tail[..n - 3], x),
                 vals[n - 1]);
    }
  }

  lemma ClenshawPair(vals: seq<real>, x: real)
    requires |vals| == 2
    ensures U(2, x) == x && Clenshaw(vals, x) == Times(vals[0], x) + vals[1]
    ensures Clenshaw(vals[1..], x) == vals[1]
    ensures Clenshaw(vals, x) == 2.0 * Series(vals, x)
  {
    assert Clenshaw(vals[..1], x) == vals[0];
    assert Times(x, 1.0) == x && Times(vals[1], 1.0) == vals[1];
    assert Times(x, vals[0]) == Times(vals[0], x) == 2.0 * Times(vals[0], x / 2.0);
  }

  lemma DifferenceStep(x: real, t: real, t1: real, t2: real, up: real, up1: real, up2: real,
                       low: real, low1: real, low2: real)
    requires t == Times(x, t1) - t2 && up == Times(x, up1) - up2 && low == Times(x, low1) - low2
    requires 2.0 * t1 == up1 - low1 && 2.0 * t2 == up2 - low2
    ensures 2.0 * t == up - low
  {
    assert x * (2.0 * t1) == x * up1 - x * low1;
  }

  /** T(k) is half the difference of two second-kind polynomials. */
  lemma {:induction false} FirstFromSecond(k: nat, x: real)
    requires k >= 1
    ensures 2.0 * T(k, x) == U(k + 1, x) - U(k - 1, x)
    decreases k
  {
    if k <= 2 {
      assert Times(x, 1.0) == x && Times(x, x / 2.0) * 2.0 == Times(x, x);
      assert U(2, x) == x;
      assert U(3, x) == Times(x, U(2, x)) - U(1, x);
    } else {
      FirstFromSecond(k - 1, x);
      FirstFromSecond(k - 2, x);
      DifferenceStep(x, T(k, x), T(k - 1, x), T(k - 2, x), U(k + 1, x), U(k, x), U(k - 1, x),
                     U(k - 1, x), U(k - 2, x), U(k - 3, x));
    }
  }

  lemma HalvesCombine(a: real, t: real, u: real, v: real)
    requires 2.0 * t == u - v
    ensures Times(a, u) - Times(a, v) == 2.0 * Times(a, t)
  {
    assert a * (2.0 * t) == a * u - a * v;
  }

  /** Half the difference of two values of the recurrence, two coefficients apart, is the series. */
  lemma {:induction false} ClenshawIsSeries(vals: seq<real>, x: real)
    requires vals != []
    ensures var n := |vals|;
            Clenshaw(vals, x) - (if n >= 2 then Clenshaw(vals[..n - 2], x) else 0.0) == 2.0 * Series(vals, x)
    decreases |vals|
  {
    var n := |vals|;
    if n == 1 {
      assert Times(vals[0], 1.0) == vals[0];
    } else if n == 2 {
      ClenshawPair(vals, x);
    } else {
      var init2, tail := vals[..n - 2], vals[1..];
      ClenshawHead(vals, x);
      ClenshawHead(init2, x);
      ClenshawIsSeries(tail, x);
      FirstFromSecond(n - 1, x);
      assert init2[1..] == tail[..n - 3];
      HalvesCombine(vals[0], T(n - 1, x), U(n, x), U(n - 2, x));
    }
  }

  /** _chbevl at one element x: the loop over three variables computes the Chebyshev series at x / 2. */
  method Chbevl(x: real, vals: seq<real>) returns (y: real)
    requires vals != []
    ensures y == Series(vals, x)
  {
    var b0 := 0.0 + vals[0];
    var b1 := 0.0;
    var b2 := b1;
    for i := 1 to |vals|
      invariant b0 == Clenshaw(vals[..i], x)
      invariant b1 == Clenshaw(vals[..i - 1], x)
      invariant b2 == if i >= 2 then Clenshaw(vals[..i - 2], x) else 0.0
    {
      b2 := b1;
      b1 := b0;
      b0 := Times(x, b1) - b2 + vals[i];
      assert vals[..i + 1][..i] == vals[..i] && vals[..i + 1][..i - 1] == vals[..i - 1];
    }
    assert vals[..|vals|] == vals;
    ClenshawIsSeries(vals, x);
    return 0.5 * (b0 - b2);
  }
}
