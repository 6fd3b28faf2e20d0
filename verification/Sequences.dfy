module Sequences {
  /** n copies of x; none if n is negative. */
  function Repeat<T>(x: T, n: int): (s: seq<T>)
    ensures |s| == if n < 0 then 0 else n
    ensures forall k :: 0 <= k < |s| ==> s[k] == x
  {
    seq(if n < 0 then 0 else n, _ => x)
  }

  lemma RepeatFirst<T>(x: T, n: nat, tail: seq<T>)
    requires n > 0
    ensures Repeat(x, n) + tail == [x] + (Repeat(x, n - 1) + tail)
  {
  }

  lemma Assoc<T>(x: seq<T>, y: seq<T>, z: seq<T>)
    ensures (x + y) + z == x + (y + z)
  {
  }
}
