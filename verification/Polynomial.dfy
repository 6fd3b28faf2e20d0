/** Coefficient lists, highest power first: alignment, evaluation and the trimmed normal form. */
module Polynomial {
  import opened RealArith
  import opened Sequences

  /** The value of the polynomial at x. */
  function Eval(p: seq<real>, x: real): real {
    if p == [] then 0.0 else Times(Eval(p[..|p| - 1], x), x) + p[|p| - 1]
  }

  function Zeros(n: nat): seq<real> {
    Repeat(0.0, n)
  }

  /** The coefficient of x^k; zero outside the list. */
  function Coefficient(p: seq<real>, k: int): real {
    if 0 <= k < |p| then p[|p| - 1 - k] else 0.0
  }

  function Pointwise(a: seq<real>, b: seq<real>, s: real): (r: seq<real>)
    requires |a| == |b|
    ensures |r| == |a| && forall k :: 0 <= k < |r| ==> r[k] == a[k] + Times(s, b[k])
  {
    seq(|a|, k requires 0 <= k < |a| => a[k] + Times(s, b[k]))
  }

  /** polyadd: the shorter list is extended by leading zeros. */
  function PolyAdd(a1: seq<real>, a2: seq<real>): (r: seq<real>) {
    var diff := |a2| - |a1|;
    if diff == 0 then seq(|a1|, k requires 0 <= k < |a1| => a1[k] + a2[k])
    else if diff > 0 then
      var a := Zeros(diff) + a1;
      seq(|a2|, k requires 0 <= k < |a2| => a[k] + a2[k])
    else
      var b := Zeros(-diff) + a2;
      seq(|a1|, k requires 0 <= k < |a1| => a1[k] + b[k])
  }

  /** polysub. */
  function PolySub(a1: seq<real>, a2: seq<real>): (r: seq<real>) {
    var diff := |a2| - |a1|;
    if diff == 0 then seq(|a1|, k requires 0 <= k < |a1| => a1[k] - a2[k])
    else if diff > 0 then
      var a := Zeros(diff) + a1;
      seq(|a2|, k requires 0 <= k < |a2| => a[k] - a2[k])
    else
      var b := Zeros(-diff) + a2;
      seq(|a1|, k requires 0 <= k < |a1| => a1[k] - b[k])
  }

  function PolyScale(p: seq<real>, s: real): (r: seq<real>)
    ensures |r| == |p| && forall k :: 0 <= k < |p| ==> r[k] == Times(p[k], s)
  {
    seq(|p|, k requires 0 <= k < |p| => Times(p[k], s))
  }

  function PolyNeg(p: seq<real>): (r: seq<real>)
    ensures |r| == |p| && forall k :: 0 <= k < |p| ==> r[k] == -p[k]
  {
    seq(|p|, k requires 0 <= k < |p| => -p[k])
  }

  // ----- evaluation -----

  lemma {:induction false} EvalLeadingZeros(n: nat, p: seq<real>, x: real)
    ensures Eval(Zeros(n) + p, x) == Eval(p, x)
    decreases |p|, n
  {
    var q := Zeros(n) + p;
    if p != [] {
      assert q[..|q| - 1] == Zeros(n) + p[..|p| - 1];
      EvalLeadingZeros(n, p[..|p| - 1], x);
    } else if n > 0 {
      assert q[..|q| - 1] == Zeros(n - 1) + [];
      EvalLeadingZeros(n - 1, [], x);
      assert Times(0.0, x) == 0.0;
    }
  }

  /** Evaluation is linear in lists of one length. */
  lemma {:induction false} EvalPointwise(a: seq<real>, b: seq<real>, s: real, x: real)
    requires |a| == |b|
    ensures Eval(Pointwise(a, b, s), x) == Eval(a, x) + Times(s, Eval(b, x))
  {
    if a != [] {
      var n := |a| - 1;
      EvalPointwise(a[..n], b[..n], s, x);
      assert Pointwise(a, b, s)[..n] == Pointwise(a[..n], b[..n], s);
      HornerLinear(Eval(a[..n], x), Eval(b[..n], x), s, x, b[n]);
    } else {
      assert Times(s, 0.0) == 0.0;
    }
  }

  /** The leading coefficient contributes the highest power. */
  lemma {:induction false} EvalHead(p: seq<real>, x: real)
    requires p != []
    ensures Eval(p, x) == Times(p[0], Power(x, |p| - 1)) + Eval(p[1..], x)
  {
    var n := |p| - 1;
    if n == 0 {
      assert p[..0] == [] && p[1..] == [];
      assert Times(0.0, x) == 0.0 && Times(p[0], 1.0) == p[0];
    } else {
      EvalHead(p[..n], x);
      assert p[..n][1..] == p[1..][..n - 1];
      HeadRaised(p[0], Power(x, n - 1), x, Eval(p[..n][1..], x));
    }
  }

  lemma HeadRaised(a: real, u: real, x: real, rest: real)
    ensures Times(Times(a, u) + rest, x) == Times(a, Times(x, u)) + Times(rest, x)
  {
    assert (a * u + rest) * x == a * u * x + rest * x;
    assert a * u * x == a * (x * u);
  }

  /** The sum of the terms below x^n. */
  function PowerSum(p: seq<real>, x: real, n: nat): real {
    if n == 0 then 0.0 else PowerSum(p, x, n - 1) + Times(Coefficient(p, n - 1), Power(x, n - 1))
  }

  /** The value is the sum of coefficient times power. */
  lemma {:induction false} EvalIsSum(p: seq<real>, x: real)
    ensures Eval(p, x) == PowerSum(p, x, |p|)
  {
    if p == [] {
    } else {
      EvalIsSum(p[1..], x);
      EvalHead(p, x);
      SumBelow(p, x, |p| - 1);
    }
  }

  /** The leading coefficient plays no part in the lower terms. */
  lemma {:induction false} SumBelow(p: seq<real>, x: real, n: nat)
    requires n < |p|
    ensures PowerSum(p, x, n) == PowerSum(p[1..], x, n)
  {
    if n == 0 {
    } else {
      SumBelow(p, x, n - 1);
      assert Coefficient(p, n - 1) == Coefficient(p[1..], n - 1);
    }
  }

  lemma HornerLinear(u: real, v: real, s: real, x: real, c: real)
    ensures Times(u + Times(s, v), x) + Times(s, c) == Times(u, x) + Times(s, Times(v, x) + c)
  {
    assert (u + s * v) * x == u * x + s * v * x;
    assert s * (v * x + c) == s * (v * x) + s * c;
  }

  lemma AddIsPointwise(a: seq<real>, b: seq<real>, n: nat)
    requires n == if |a| >= |b| then |a| else |b|
    ensures PolyAdd(a, b) == Pointwise(Zeros(n - |a|) + a, Zeros(n - |b|) + b, 1.0)
  {
    var pa, pb := Zeros(n - |a|) + a, Zeros(n - |b|) + b;
    forall k | 0 <= k < n
      ensures PolyAdd(a, b)[k] == Pointwise(pa, pb, 1.0)[k]
    {
      assert Times(1.0, pb[k]) == pb[k];
    }
  }

  lemma SubIsPointwise(a: seq<real>, b: seq<real>, n: nat)
    requires n == if |a| >= |b| then |a| else |b|
    ensures PolySub(a, b) == Pointwise(Zeros(n - |a|) + a, Zeros(n - |b|) + b, -1.0)
  {
    var pa, pb := Zeros(n - |a|) + a, Zeros(n - |b|) + b;
    forall k | 0 <= k < n
      ensures PolySub(a, b)[k] == Pointwise(pa, pb, -1.0)[k]
    {
      assert Times(-1.0, pb[k]) == -pb[k];
    }
  }

  /** Adding two coefficient lists adds the polynomials, for any two lengths. */
  lemma EvalAdd(a: seq<real>, b: seq<real>, x: real)
    ensures Eval(PolyAdd(a, b), x) == Eval(a, x) + Eval(b, x)
  {
    var n := if |a| >= |b| then |a| else |b|;
    EvalAligned(a, b, 1.0, x, n);
    AddIsPointwise(a, b, n);
    assert Times(1.0, Eval(b, x)) == Eval(b, x);
  }

  /** Subtracting two coefficient lists subtracts the polynomials, for any two lengths. */
  lemma EvalSub(a: seq<real>, b: seq<real>, x: real)
    ensures Eval(PolySub(a, b), x) == Eval(a, x) - Eval(b, x)
  {
    var n := if |a| >= |b| then |a| else |b|;
    EvalAligned(a, b, -1.0, x, n);
    SubIsPointwise(a, b, n);
    assert Times(-1.0, Eval(b, x)) == -Eval(b, x);
  }

  lemma EvalAligned(a: seq<real>, b: seq<real>, s: real, x: real, n: nat)
    requires n >= |a| && n >= |b|
    ensures Eval(Pointwise(Zeros(n - |a|) + a, Zeros(n - |b|) + b, s), x) == Eval(a, x) + Times(s, Eval(b, x))
  {
    EvalPointwise(Zeros(n - |a|) + a, Zeros(n - |b|) + b, s, x);
    EvalLeadingZeros(n - |a|, a, x);
    EvalLeadingZeros(n - |b|, b, x);
  }

  lemma EvalScale(p: seq<real>, s: real, x: real)
    ensures Eval(PolyScale(p, s), x) == Times(Eval(p, x), s)
  {
    var z := Zeros(|p|);
    EvalPointwise(z, p, s, x);
    EvalLeadingZeros(|p|, [], x);
    assert z + [] == z;
    assert forall c: real :: Times(s, c) == Times(c, s);
    assert PolyScale(p, s) == Pointwise(z, p, s);
  }

  lemma EvalNeg(p: seq<real>, x: real)
    ensures Eval(PolyNeg(p), x) == -Eval(p, x)
  {
    EvalScale(p, -1.0, x);
    assert forall c: real :: Times(c, -1.0) == -c;
    assert PolyNeg(p) == PolyScale(p, -1.0);
  }

  // ----- normal form -----

  /** trim_zeros(p, "f"). */
  function TrimFront(p: seq<real>): (r: seq<real>) {
    if p != [] && p[0] == 0.0 then TrimFront(p[1..]) else p
  }

  /** What poly1d stores: leading zeros trimmed, a single zero if nothing is left. */
  function Normal(p: seq<real>): (r: seq<real>)
    ensures |r| > 0
  {
    if TrimFront(p) == [] then [0.0] else TrimFront(p)
  }

  ghost predicate Trimmed(p: seq<real>) {
    |p| == 1 || (|p| > 1 && p[0] != 0.0)
  }

  lemma {:induction false} TrimFrontFacts(p: seq<real>)
    ensures var r := TrimFront(p);
            && |r| <= |p| && p == Zeros(|p| - |r|) + r && (r != [] ==> r[0] != 0.0)
  {
    if p == [] || p[0] != 0.0 {
    } else {
      TrimFrontFacts(p[1..]);
      assert p == [0.0] + p[1..];
    }
  }

  /** Normalising changes neither the polynomial nor a single coefficient, and yields the normal form. */
  lemma NormalFacts(p: seq<real>)
    ensures Trimmed(Normal(p))
    ensures forall x: real :: Eval(Normal(p), x) == Eval(p, x)
    ensures forall k: int :: Coefficient(Normal(p), k) == Coefficient(p, k)
    ensures Trimmed(p) ==> Normal(p) == p
  {
    TrimFrontFacts(p);
    var r := TrimFront(p);
    forall x: real
      ensures Eval(Normal(p), x) == Eval(p, x)
    {
      EvalLeadingZeros(|p| - |r|, r, x);
      assert Times(0.0, x) == 0.0;
    }
  }

  /** Lists in normal form are equal exactly when all coefficients agree. */
  lemma TrimmedEqualIff(p: seq<real>, q: seq<real>)
    requires Trimmed(p) && Trimmed(q)
    ensures p == q <==> forall k: int :: Coefficient(p, k) == Coefficient(q, k)
  {
    if forall k: int :: Coefficient(p, k) == Coefficient(q, k) {
      assert Coefficient(p, |p| - 1) == Coefficient(q, |p| - 1);
      assert Coefficient(p, |q| - 1) == Coefficient(q, |q| - 1);
      if |p| == |q| {
        forall k | 0 <= k < |p|
          ensures p[k] == q[k]
        {
          assert Coefficient(p, |p| - 1 - k) == Coefficient(q, |p| - 1 - k);
        }
      }
    }
  }

  // ----- a polynomial that vanishes often enough is zero -----

  /** Synthetic division by x - r. */
  function Quotient(p: seq<real>, r: real): (q: seq<real>)
    ensures |q| == if p == [] then 0 else |p| - 1
  {
    if |p| <= 1 then [] else Quotient(p[..|p| - 1], r) + [Eval(p[..|p| - 1], r)]
  }

  lemma {:induction false} FactorTheorem(p: seq<real>, r: real, x: real)
    ensures Eval(p, x) - Eval(p, r) == Times(x - r, Eval(Quotient(p, r), x))
  {
    if |p| <= 1 {
      if |p| == 1 {
        assert p[..0] == [];
        assert Times(0.0, x) == 0.0 == Times(0.0, r);
      }
      assert Times(x - r, 0.0) == 0.0;
    } else {
      var init := p[..|p| - 1];
      FactorTheorem(init, r, x);
      var q := Quotient(p, r);
      assert q[..|q| - 1] == Quotient(init, r);
      FactorStep(x, r, Eval(init, x), Eval(init, r), Eval(Quotient(init, r), x));
    }
  }

  lemma FactorStep(x: real, r: real, px: real, pr: real, qx: real)
    requires px - pr == Times(x - r, qx)
    ensures Times(px, x) - Times(pr, r) == Times(x - r, Times(qx, x) + pr)
  {
    assert px * x - pr * r == (px - pr) * x + pr * (x - r);
    assert (x - r) * qx * x == (x - r) * (qx * x);
  }

  ghost predicate AllZero(p: seq<real>) {
    forall k :: 0 <= k < |p| ==> p[k] == 0.0
  }

  lemma {:induction false} QuotientZero(p: seq<real>, r: real)
    requires AllZero(Quotient(p, r)) && Eval(p, r) == 0.0
    ensures AllZero(p)
  {
    if p == [] {
    } else {
      var n := |p| - 1;
      var init := p[..n];
      if n > 0 {
        var q := Quotient(p, r);
        assert q[n - 1] == Eval(init, r);
        assert forall k :: 0 <= k < n - 1 ==> Quotient(init, r)[k] == q[k];
        QuotientZero(init, r);
      }
      assert Times(0.0, r) == 0.0;
      assert p == init + [p[n]];
    }
  }

  function EvalAt(p: seq<real>, x: int): real {
    Eval(p, x as real)
  }

  /** A polynomial that is zero at all integers from m on has only zero coefficients. */
  lemma {:induction false} VanishingIsZero(p: seq<real>, m: int)
    requires forall x :: x >= m ==> EvalAt(p, x) == 0.0
    ensures AllZero(p)
    decreases |p|
  {
    if p == [] {
    } else {
      var r := m as real;
      assert EvalAt(p, m) == 0.0;
      forall x | x >= m + 1
        ensures EvalAt(Quotient(p, r), x) == 0.0
      {
        assert EvalAt(p, x) == 0.0;
        FactorTheorem(p, r, x as real);
        NonzeroFactor(x as real - r, EvalAt(Quotient(p, r), x));
      }
      VanishingIsZero(Quotient(p, r), m + 1);
      QuotientZero(p, r);
    }
  }

  lemma NonzeroFactor(a: real, b: real)
    requires a > 0.0 && Times(a, b) == 0.0
    ensures b == 0.0
  {
  }

  /** Lists in normal form that agree at all integers from some point on are equal. */
  lemma SameValuesSameList(p: seq<real>, q: seq<real>, m: int)
    requires Trimmed(p) && Trimmed(q)
    requires forall x :: x >= m ==> EvalAt(p, x) == EvalAt(q, x)
    ensures p == q
  {
    var d := PolySub(p, q);
    forall x | x >= m
      ensures EvalAt(d, x) == 0.0
    {
      assert EvalAt(p, x) == EvalAt(q, x);
      EvalSub(p, q, x as real);
    }
    VanishingIsZero(d, m);
    forall k: int
      ensures Coefficient(p, k) == Coefficient(q, k)
    {
      SubCoefficient(p, q, k);
      assert Coefficient(d, k) == 0.0;
    }
    TrimmedEqualIff(p, q);
  }

  ghost predicate SameFunction(p: seq<real>, q: seq<real>) {
    forall x: real :: Eval(p, x) == Eval(q, x)
  }

  /** Lists of any form are equal exactly when they are the same function and equally long. */
  lemma SameLengthSameFunction(p: seq<real>, q: seq<real>)
    ensures p == q <==> SameFunction(p, q) && |p| == |q|
  {
    if SameFunction(p, q) && |p| == |q| {
      var d := PolySub(p, q);
      forall x | x >= 0
        ensures EvalAt(d, x) == 0.0
      {
        assert Eval(p, x as real) == Eval(q, x as real);
        EvalSub(p, q, x as real);
      }
      VanishingIsZero(d, 0);
      forall k | 0 <= k < |p|
        ensures p[k] == q[k]
      {
        SubCoefficient(p, q, |p| - 1 - k);
        assert Coefficient(d, |p| - 1 - k) == 0.0;
      }
    }
  }

  /** A leading zero makes two lists of the same function differ. */
  lemma LeadingZeroDiffers()
    ensures SameFunction([0.0, 1.0], [1.0]) && [0.0, 1.0] != [1.0]
    ensures !Trimmed([0.0, 1.0]) && Trimmed([1.0])
  {
    forall x: real
      ensures Eval([0.0, 1.0], x) == Eval([1.0], x)
    {
      EvalLeadingZeros(1, [1.0], x);
      assert Zeros(1) + [1.0] == [0.0, 1.0];
    }
  }

  /** Lists in normal form are equal exactly when they are the same function. */
  lemma EqualIffSameFunction(p: seq<real>, q: seq<real>)
    requires Trimmed(p) && Trimmed(q)
    ensures p == q <==> SameFunction(p, q)
  {
    if SameFunction(p, q) {
      forall x | x >= 0
        ensures EvalAt(p, x) == EvalAt(q, x)
      {
        assert Eval(p, x as real) == Eval(q, x as real);
      }
      SameValuesSameList(p, q, 0);
    }
  }

  /** A sum is as long as the longer list, and every coefficient is the sum of the two. */
  lemma AddCoefficient(p: seq<real>, q: seq<real>, k: int)
    ensures |PolyAdd(p, q)| == if |p| >= |q| then |p| else |q|
    ensures Coefficient(PolyAdd(p, q), k) == Coefficient(p, k) + Coefficient(q, k)
  {
  }

  lemma SubCoefficient(p: seq<real>, q: seq<real>, k: int)
    ensures |PolySub(p, q)| == if |p| >= |q| then |p| else |q|
    ensures Coefficient(PolySub(p, q), k) == Coefficient(p, k) - Coefficient(q, k)
  {
  }
}
