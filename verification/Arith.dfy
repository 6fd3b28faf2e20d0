/** Facts about multiplication and floor division that the solver does not find alone. */
module Arith {

  lemma {:induction false} MulMono(a: int, b: int, q: nat)
    requires a <= b
    ensures a * q <= b * q
    decreases q
  {
    if q == 0 {
    } else {
      MulMono(a, b, q - 1);
    }
  }

  lemma MulLeSuccessor(i: int, n: int, q: nat)
    requires i < n
    ensures i * q + q <= n * q
  {
    MulMono(i + 1, n, q);
  }

  lemma MulAssoc(a: int, b: int, c: int)
    ensures a * b * c == a * (b * c)
  {
  }

  lemma Distribute(a: int, b: int, c: int)
    ensures (a + b) * c == a * c + b * c
    ensures c * (a + b) == c * a + c * b
  {
  }

  lemma MulPositive(a: int, b: int)
    requires a > 0 && b > 0
    ensures a * b > 0
  {
  }

  /** Quotient and remainder are unique. */
  lemma DivModUnique(t: int, a: int, b: int, q: nat)
    requires 0 <= b < q && t == a * q + b
    ensures t / q == a && t % q == b
  {
    var d, m := t / q, t % q;
    assert t == d * q + m && 0 <= m < q by { DivModDef(t, q); }
    if d < a {
      MulLeSuccessor(d, a, q);
    } else if d > a {
      MulLeSuccessor(a, d, q);
    }
  }

  lemma DivModDef(t: int, q: nat)
    requires q > 0
    ensures t == (t / q) * q + t % q && 0 <= t % q < q
  {
  }

  /** A quotient lies below n exactly when the dividend lies below n * q. */
  lemma DivBound(t: int, q: nat, n: int)
    requires q > 0
    ensures t / q < n <==> t < n * q
  {
    var d, m := t / q, t % q;
    DivModDef(t, q);
    if d < n {
      MulLeSuccessor(d, n, q);
    } else {
      MulMono(n, d, q);
    }
  }

  /** Nested floor divisions collapse to one. */
  lemma DivDiv(t: nat, a: nat, b: nat)
    requires a > 0 && b > 0
    ensures a * b > 0 && (t / a) / b == t / (a * b)
  {
    var d := t / a;
    var e := d / b;
    DivModDef(t, a);
    DivModDef(d, b);
    MulPositive(a, b);
    var r := (d % b) * a + t % a;
    assert t == e * (a * b) + r by {
      Distribute(e * b, d % b, a);
      assert e * b * a == e * (a * b);
    }
    MulLeSuccessor(d % b, b, a);
    assert 0 <= (d % b) * a by { MulMono(0, d % b, a); }
    assert b * a == a * b;
    DivModUnique(t, e, r, a * b);
  }

  function Max(x: int, y: int): int {
    if x >= y then x else y
  }

  function Min(x: int, y: int): int {
    if x <= y then x else y
  }
}
