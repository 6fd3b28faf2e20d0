/** poly1d: a polynomial object over a coefficient array that copies of it share. */
module Poly1d {
  import opened Wrappers
  import opened Polynomial
  import opened RealArith
  import opened Sequences

  datatype Error = NegativePower

  class Poly1d {
    var coeffs: array<real>

    ghost predicate Valid()
      reads this
    {
      coeffs.Length > 0
    }

    /** The coefficients, highest power first. */
    function List(): (p: seq<real>)
      reads this, coeffs
    {
      coeffs[..]
    }

    /** From a list or array: leading zeros are trimmed into an array of its own. */
    constructor FromList(c: seq<real>)
      ensures Valid() && fresh(coeffs) && List() == Normal(c)
    {
      var trimmed := Normal(c);
      var a := new real[|trimmed|](k requires 0 <= k < |trimmed| => trimmed[k]);
      coeffs := a;
      new;
      assert coeffs[..] == trimmed;
    }

    /** From another poly1d: the coefficient array is shared, not copied. */
    constructor FromPoly(p: Poly1d)
      requires p.Valid()
      ensures Valid() && coeffs == p.coeffs
    {
      coeffs := p.coeffs;
    }

    function Order(): (n: int)
      reads this
    {
      coeffs.Length - 1
    }

    /** __getitem__: the coefficient of x^val, zero for powers that are not stored. */
    method GetItem(val: int) returns (c: real)
      requires Valid()
      ensures c == Coefficient(List(), val)
    {
      var ind := Order() - val;
      if val > Order() || val < 0 {
        return 0.0;
      }
      return coeffs[ind];
    }

    /**
      __setitem__: exactly the coefficient of x^key changes. Within the stored powers the array is
      written in place; beyond them a longer array replaces it and the old one stays as it was.
     */
    method SetItem(key: int, val: real) returns (r: Result<(), Error>)
      requires Valid()
      modifies this, coeffs
      ensures Valid()
      ensures r.Failure? <==> key < 0
      ensures r.Failure? ==> coeffs == old(coeffs) && List() == old(List())
      ensures r.Success? ==> forall k: int ::
                Coefficient(List(), k) == if k == key then val else Coefficient(old(List()), k)
      ensures key <= old(Order()) ==> coeffs == old(coeffs)
      ensures key > old(Order()) ==> fresh(coeffs) && old(coeffs)[..] == old(List()) && Order() == key
      ensures key >= 0 ==>
                (Trimmed(List()) <==> if key >= old(Order()) then key == 0 || val != 0.0 else Trimmed(old(List())))
    {
      if key < 0 {
        return Failure(NegativePower);
      }
      var ind := Order() - key;
      if key > Order() {
        var longer := Zeros(key - Order()) + coeffs[..];
        var a := new real[|longer|](k requires 0 <= k < |longer| => longer[k]);
        assert a[..] == longer;
        coeffs := a;
        ind := 0;
      }
      coeffs[ind] := val;
      return Success(());
    }

    /** __eq__ between two poly1d objects. */
    method Equals(other: Poly1d) returns (same: bool)
      requires Valid() && other.Valid()
      ensures same <==> List() == other.List()
      ensures same <==> SameFunction(List(), other.List()) && |List()| == |other.List()|
      ensures Trimmed(List()) && Trimmed(other.List()) ==> (same <==> SameFunction(List(), other.List()))
      ensures Trimmed(List()) && Trimmed(other.List()) ==>
                (same <==> forall k: int :: Coefficient(List(), k) == Coefficient(other.List(), k))
    {
      SameLengthSameFunction(List(), other.List());
      if Trimmed(List()) && Trimmed(other.List()) {
        EqualIffSameFunction(List(), other.List());
        TrimmedEqualIff(List(), other.List());
      }
      if coeffs.Length != other.coeffs.Length {
        return false;
      }
      same := forall k :: 0 <= k < coeffs.Length ==> coeffs[k] == other.coeffs[k];
      assert same ==> List() == other.List();
      assert !same ==> List() != other.List() by {
        if !same {
          var k :| 0 <= k < coeffs.Length && coeffs[k] != other.coeffs[k];
          assert List()[k] != other.List()[k];
        }
      }
    }

    /** __add__. */
    method Add(other: Poly1d) returns (r: Poly1d)
      requires Valid() && other.Valid()
      ensures fresh(r) && fresh(r.coeffs) && r.Valid() && Trimmed(r.List())
      ensures forall x: real :: Eval(r.List(), x) == Eval(List(), x) + Eval(other.List(), x)
    {
      r := new Poly1d.FromList(PolyAdd(coeffs[..], other.coeffs[..]));
      NormalFacts(PolyAdd(coeffs[..], other.coeffs[..]));
      forall x: real
        ensures Eval(r.List(), x) == Eval(List(), x) + Eval(other.List(), x)
      {
        EvalAdd(List(), other.List(), x);
      }
    }

    /** __sub__. */
    method Sub(other: Poly1d) returns (r: Poly1d)
      requires Valid() && other.Valid()
      ensures fresh(r) && fresh(r.coeffs) && r.Valid() && Trimmed(r.List())
      ensures forall x: real :: Eval(r.List(), x) == Eval(List(), x) - Eval(other.List(), x)
    {
      r := new Poly1d.FromList(PolySub(coeffs[..], other.coeffs[..]));
      NormalFacts(PolySub(coeffs[..], other.coeffs[..]));
      forall x: real
        ensures Eval(r.List(), x) == Eval(List(), x) - Eval(other.List(), x)
      {
        EvalSub(List(), other.List(), x);
      }
    }

    /** __neg__. */
    method Neg() returns (r: Poly1d)
      requires Valid()
      ensures fresh(r) && fresh(r.coeffs) && r.Valid() && Trimmed(r.List())
      ensures forall x: real :: Eval(r.List(), x) == -Eval(List(), x)
    {
      r := new Poly1d.FromList(PolyNeg(coeffs[..]));
      NormalFacts(PolyNeg(coeffs[..]));
      forall x: real
        ensures Eval(r.List(), x) == -Eval(List(), x)
      {
        EvalNeg(List(), x);
      }
    }

    /** __mul__ by a scalar. */
    method Scale(s: real) returns (r: Poly1d)
      requires Valid()
      ensures fresh(r) && fresh(r.coeffs) && r.Valid() && Trimmed(r.List())
      ensures forall x: real :: Eval(r.List(), x) == Times(Eval(List(), x), s)
    {
      r := new Poly1d.FromList(PolyScale(coeffs[..], s));
      NormalFacts(PolyScale(coeffs[..], s));
      forall x: real
        ensures Eval(r.List(), x) == Times(Eval(List(), x), s)
      {
        EvalScale(List(), s, x);
      }
    }
  }

  /**
    Assigning through one of two objects that share their array: the other sees the assignment
    exactly if it did not need a longer array.
   */
  method AssignShared(p: Poly1d, key: nat, val: real) returns (q: Poly1d)
    requires p.Valid()
    modifies p, p.coeffs
    ensures fresh(q) && p.Valid() && q.Valid()
    ensures forall k: int ::
              Coefficient(p.List(), k) == if k == key then val else Coefficient(old(p.List()), k)
    ensures forall k: int ::
              Coefficient(q.List(), k) ==
              if k == key && key <= old(p.Order()) then val else Coefficient(old(p.List()), k)
    ensures q.coeffs == p.coeffs <==> key <= old(p.Order())
  {
    q := new Poly1d.FromPoly(p);
    var r := p.SetItem(key, val);
  }
}
