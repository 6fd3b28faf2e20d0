/** What mode 'r' protects over a run, and how an object loses the protection. */
module MemmapProtection {
  import opened Wrappers
  import opened RowMajor
  import opened Codec
  import opened Layout
  import opened Memmap
  import opened MemmapTrace

  /** Every object over the opened array's items refuses assignments. */
  ghost predicate Protected(s: State) {
    forall k :: 0 <= k < |s.objs| && s.objs[k].overRoot ==> s.objs[k].mode == Some(ReadOnly)
  }

  /** A reshape or ravel that shares the items of an array that is not C-contiguous, and so forgets its mode. */
  predicate Loses(s: State, op: Op) {
    && Effective(s, op) && s.objs[op.i].overRoot && !Consecutive(s.objs[op.i].cells)
    && ((op.Reshape? && op.shares) || (op.Ravel? && op.shares))
  }

  lemma NextProtected(s: State, op: Op, writable: bool)
    requires Sound(s)
    ensures Protected(s) ==> (Protected(Next(s, op, writable)) <==> !Loses(s, op))
    ensures !Protected(s) ==> !Protected(Next(s, op, writable))
  {
    var t := Next(s, op, writable);
    assert forall k :: 0 <= k < |s.objs| ==> s.objs[k] == t.objs[k];
    if Effective(s, op) && Creates(op) {
      assert t.objs[|s.objs|] == Created(s.objs[op.i], op);
    }
  }

  /**
    A protected array stays protected over a run if and only if the run never reshapes or ravels,
    sharing, an object over it that is not C-contiguous.
   */
  lemma {:induction false} ProtectedIff(s: State, ops: seq<Op>, writable: bool)
    requires Sound(s) && Protected(s)
    ensures (forall k :: 0 <= k < |ops| ==> !Loses(Trace(s, ops, writable)[k], ops[k]))
       <==> Protected(Last(s, ops, writable))
  {
    if forall k :: 0 <= k < |ops| ==> !Loses(Trace(s, ops, writable)[k], ops[k]) {
      StaysProtected(s, ops, writable, |ops|);
    } else {
      var k := FirstLoss(s, ops, writable, 0);
      StaysProtected(s, ops, writable, k);
      TraceSteps(s, ops, writable, k);
      NextProtected(Trace(s, ops, writable)[k], ops[k], writable);
      StaysExposed(s, ops, writable, k + 1, |ops|);
    }
  }

  lemma {:induction false} StaysProtected(s: State, ops: seq<Op>, writable: bool, n: nat)
    requires Sound(s) && Protected(s) && n <= |ops|
    requires forall k :: 0 <= k < n ==> !Loses(Trace(s, ops, writable)[k], ops[k])
    ensures Protected(Trace(s, ops, writable)[n])
    decreases n
  {
    if n == 0 {
    } else {
      StaysProtected(s, ops, writable, n - 1);
      TraceSteps(s, ops, writable, n - 1);
      NextProtected(Trace(s, ops, writable)[n - 1], ops[n - 1], writable);
    }
  }

  lemma {:induction false} StaysExposed(s: State, ops: seq<Op>, writable: bool, m: nat, n: nat)
    requires Sound(s) && m <= n <= |ops| && !Protected(Trace(s, ops, writable)[m])
    ensures !Protected(Trace(s, ops, writable)[n])
    decreases n
  {
    if n == m {
    } else {
      StaysExposed(s, ops, writable, m, n - 1);
      TraceSteps(s, ops, writable, n - 1);
      NextProtected(Trace(s, ops, writable)[n - 1], ops[n - 1], writable);
    }
  }

  lemma {:induction false} FirstLoss(s: State, ops: seq<Op>, writable: bool, m: nat) returns (k: nat)
    requires Sound(s) && m <= |ops|
    requires exists j :: m <= j < |ops| && Loses(Trace(s, ops, writable)[j], ops[j])
    requires forall j :: 0 <= j < m ==> !Loses(Trace(s, ops, writable)[j], ops[j])
    ensures k < |ops| && Loses(Trace(s, ops, writable)[k], ops[k])
    ensures forall j :: 0 <= j < k ==> !Loses(Trace(s, ops, writable)[j], ops[j])
    decreases |ops| - m
  {
    if Loses(Trace(s, ops, writable)[m], ops[m]) {
      k := m;
    } else {
      k := FirstLoss(s, ops, writable, m + 1);
    }
  }

  /** Protection is what it says: without it, and only without it, some assignment goes through. */
  lemma ProtectedMeans(s: State)
    requires Sound(s)
    ensures (exists op :: Hits(s, op)) <==> !Protected(s)
  {
    if !Protected(s) {
      var k :| 0 <= k < |s.objs| && s.objs[k].overRoot && s.objs[k].mode != Some(ReadOnly);
      assert Hits(s, SetItem(k, [], []));
    }
  }

  /** While it is protected throughout, the array's items do not change. */
  lemma ProtectedItems(s: State, ops: seq<Op>, writable: bool)
    requires Sound(s) && Protected(s)
    requires forall k :: 0 <= k < |ops| ==> !Loses(Trace(s, ops, writable)[k], ops[k])
    ensures Last(s, ops, writable).items == s.items
  {
    var tr := Trace(s, ops, writable);
    forall k | 0 <= k < |ops|
      ensures !Hits(tr[k], ops[k])
    {
      StaysProtected(s, ops, writable, k);
    }
    ItemsKept(s, ops, writable, 0, |ops|);
  }

  /** A 2x2 array in F order, opened read-only: an assignment through its sharing ravel changes it. */
  lemma ReadOnlyChanged()
    ensures var s := State([Obj(true, true, Some(ReadOnly), UInt8, [2, 2], [0, 2, 1, 3])], UInt8,
                           [Scalar(0), Scalar(0), Scalar(0), Scalar(0)], None);
            var ops := [Ravel(0, F, true), SetItem(1, [0], [Scalar(1)])];
            Sound(s) && Protected(s) && Last(s, ops, false).items != s.items
  {
    var zeros := [Scalar(0), Scalar(0), Scalar(0), Scalar(0)];
    var root := Obj(true, true, Some(ReadOnly), UInt8, [2, 2], [0, 2, 1, 3]);
    var s := State([root], UInt8, zeros, None);
    assert Prod([2, 2]) == 2 * Prod([2]) && Prod([2]) == 2 * Prod([]);
    assert root.cells[1] != root.cells[0] + 1;
    RavelBypasses(s, F, Scalar(1), false);
  }

  /** Whatever its mode, an array that is not C-contiguous can be assigned to through its sharing ravel. */
  lemma RavelBypasses(s: State, o: Order, v: Item, writable: bool)
    requires Sound(s) && |s.objs| == 1 && s.objs[0].overRoot && !Consecutive(s.objs[0].cells)
    requires Fits(s.dtype, v) && v !in s.items
    ensures Last(s, [Ravel(0, o, true), SetItem(1, [0], [v])], writable).items != s.items
  {
    RavelForgets(s, o, writable);
    TwoSteps(s, Ravel(0, o, true), SetItem(1, [0], [v]), writable);
    WriteFirst(Next(s, Ravel(0, o, true), writable), 1, v, writable);
  }

  lemma RavelForgets(s: State, o: Order, writable: bool)
    requires Sound(s) && |s.objs| == 1 && s.objs[0].overRoot && !Consecutive(s.objs[0].cells)
    ensures var t := Next(s, Ravel(0, o, true), writable);
            && |t.objs| == 2 && t.objs[1].overRoot && t.objs[1].mode == None
            && |t.objs[1].cells| == |s.objs[0].cells| && t.items == s.items
  {
    assert SoundObj(s.objs[0], s.dtype, |s.items|);
  }

  lemma WriteFirst(s: State, k: nat, v: Item, writable: bool)
    requires Sound(s) && k < |s.objs| && s.objs[k].overRoot && s.objs[k].mode != Some(ReadOnly)
    requires s.objs[k].cells != [] && Fits(s.dtype, v)
    ensures s.objs[k].cells[0] < |s.items|
    ensures Next(s, SetItem(k, [0], [v]), writable).items[s.objs[k].cells[0]] == v
  {
    var a := s.objs[k];
    assert SoundObj(a, s.dtype, |s.items|);
    WrittenAt(s.items, a.cells, [0], [v], a.cells[0]);
  }

  lemma TwoSteps(s: State, first: Op, second: Op, writable: bool)
    requires Sound(s)
    ensures Last(s, [first, second], writable) == Next(Next(s, first, writable), second, writable)
  {
    var ops := [first, second];
    TraceSteps(s, ops, writable, 0);
    TraceSteps(s, ops, writable, 1);
  }
}
