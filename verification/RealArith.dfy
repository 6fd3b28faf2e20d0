module RealArith {
  /** The product, as a function of its own: equal factors then give equal products. */
  function Times(a: real, b: real): real {
    a * b
  }

  function Power(z: real, k: nat): real {
    if k == 0 then 1.0 else Times(z, Power(z, k - 1))
  }

  lemma ProductPositive(x: real, y: real)
    requires x > 0.0 && y > 0.0
    ensures x * y > 0.0
  {
  }

  lemma DistributeReal(x: real, y: real, z: real)
    ensures (x - y) * z == x * z - y * z
  {
  }
}
