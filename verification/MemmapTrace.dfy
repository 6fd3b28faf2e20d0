/** The pure counterpart of a run over one opened file: which calls reach its items, and which reach the file. */
module MemmapTrace {
  import opened Wrappers
  import opened RowMajor
  import opened Codec
  import opened Layout
  import opened Memmap

  /** One call on the i-th object created so far; object 0 is the one opened from the file. */
  datatype Op =
    | GetView(i: nat, sel: seq<nat>, shape: seq<nat>, basic: bool)
    | Reshape(i: nat, shape: seq<nat>, o: Order, shares: bool)
    | Ravel(i: nat, o: Order, shares: bool)
    | Flatten(i: nat, o: Order)
    | CopyOf(i: nat, dt: DType, elements: seq<Item>)
    | SetItem(i: nat, sel: seq<nat>, vals: seq<Item>)
    | Fill(i: nat, value: Item)
    | Flush(i: nat)

  /**
    What matters of an object: whether it shows the opened array's own items, whether following
    base from it leads to the opened array, its mode, and its view.
   */
  datatype Obj = Obj(overRoot: bool, toRoot: bool, mode: Option<Mode>, dtype: DType, shape: seq<nat>, cells: seq<nat>)

  /** The objects so far, the opened array's items, and the items last flushed. */
  datatype State = State(objs: seq<Obj>, dtype: DType, items: seq<Item>, flushed: Option<seq<Item>>)

  predicate InRange(sel: seq<nat>, n: nat) {
    forall k :: 0 <= k < |sel| ==> sel[k] < n
  }

  /** Calls outside this are errors of indexing or conversion that change nothing. */
  predicate Applicable(op: Op, dtype: DType, size: nat) {
    match op
    case GetView(_, sel, shape, _) => |sel| == Prod(shape) && InRange(sel, size)
    case Reshape(_, shape, _, _) => Prod(shape) == size
    case CopyOf(_, dt, elements) =>
      |elements| == size && forall k :: 0 <= k < |elements| ==> Fits(dt, elements[k])
    case SetItem(_, sel, vals) =>
      && |sel| == |vals| && InRange(sel, size)
      && forall k :: 0 <= k < |vals| ==> Fits(dtype, vals[k])
    case Fill(_, value) => Fits(dtype, value)
    case _ => true
  }

  ghost predicate SoundObj(a: Obj, dtype: DType, size: nat) {
    && |a.cells| == Prod(a.shape)
    && (a.overRoot ==> a.dtype == dtype && InRange(a.cells, size))
  }

  ghost predicate Sound(s: State) {
    && (forall k :: 0 <= k < |s.objs| ==> SoundObj(s.objs[k], s.dtype, |s.items|))
    && AllFit(s.dtype, s.items)
    && (s.flushed.Some? ==> |s.flushed.value| == |s.items| && AllFit(s.dtype, s.flushed.value))
  }

  predicate Creates(op: Op) {
    !op.SetItem? && !op.Fill? && !op.Flush?
  }

  /** The object a call creates. */
  function Created(a: Obj, op: Op): (c: Obj)
    requires Creates(op) && Applicable(op, a.dtype, |a.cells|) && |a.cells| == Prod(a.shape)
    ensures |c.cells| == Prod(c.shape)
  {
    var kept := if Consecutive(a.cells) then a.mode else None;
    match op
    case GetView(_, sel, shape, basic) =>
      Obj(a.overRoot && basic, a.toRoot, a.mode, a.dtype, shape, Taken(a.cells, sel, basic))
    case Reshape(_, shape, o, shares) =>
      Obj(a.overRoot && shares, a.toRoot, kept, a.dtype, shape,
          Taken(a.cells, ReshapeSelection(o, a.shape, shape), shares))
    case Ravel(_, o, shares) =>
      var sel := RavelSelection(o, a.shape);
      Obj(a.overRoot && shares, a.toRoot && Consecutive(a.cells), kept, a.dtype, [|a.cells|],
          Taken(a.cells, sel, shares))
    case Flatten(_, o) =>
      ReadOneAxis(o, a.cells);
      Obj(false, false, None, a.dtype, [|a.cells|], Iota(|a.cells|))
    case CopyOf(_, dt, elements) => Obj(false, false, None, dt, a.shape, Iota(|a.cells|))
    case _ => a
  }

  /** The opened array's items after a call on object a. */
  function Assigned(a: Obj, op: Op, items: seq<Item>): (r: seq<Item>)
    requires Applicable(op, a.dtype, |a.cells|) && (a.overRoot ==> InRange(a.cells, |items|))
    ensures |r| == |items|
  {
    if !a.overRoot || a.mode == Some(ReadOnly) then items
    else match op
         case SetItem(_, sel, vals) => Written(items, a.cells, sel, vals)
         case Fill(_, value) => Filled(items, a.cells, value)
         case _ => items
  }

  predicate Effective(s: State, op: Op) {
    op.i < |s.objs| && Applicable(op, s.objs[op.i].dtype, |s.objs[op.i].cells|)
  }

  /** The call assigns to the opened array's items. */
  predicate Hits(s: State, op: Op) {
    && Effective(s, op) && (op.SetItem? || op.Fill?)
    && s.objs[op.i].overRoot && s.objs[op.i].mode != Some(ReadOnly)
  }

  /** The call puts the opened array's items into the file. */
  predicate Puts(s: State, op: Op, writable: bool) {
    writable && op.Flush? && op.i < |s.objs| && s.objs[op.i].toRoot
  }

  function Next(s: State, op: Op, writable: bool): (t: State)
    requires Sound(s)
    ensures Sound(t) && t.dtype == s.dtype && |t.items| == |s.items| && s.objs <= t.objs
  {
    if !Effective(s, op) then s
    else
      var a := s.objs[op.i];
      AssignedFits(s, op);
      CreatedSound(s, op);
      if Creates(op) then s.(objs := s.objs + [Created(a, op)])
      else if Puts(s, op, writable) then s.(flushed := Some(s.items))
      else s.(items := Assigned(a, op, s.items))
  }

  lemma CreatedSound(s: State, op: Op)
    requires Sound(s) && Effective(s, op)
    ensures Creates(op) ==> SoundObj(Created(s.objs[op.i], op), s.dtype, |s.items|)
  {
  }

  lemma AssignedFits(s: State, op: Op)
    requires Sound(s) && Effective(s, op)
    ensures AllFit(s.dtype, Assigned(s.objs[op.i], op, s.items))
  {
    var a := s.objs[op.i];
    if op.SetItem? && a.overRoot {
      WrittenFits(s.dtype, s.items, a.cells, op.sel, op.vals);
    }
  }

  /** The states before the calls and after the last one. */
  function Trace(s: State, ops: seq<Op>, writable: bool): (tr: seq<State>)
    requires Sound(s)
    ensures |tr| == |ops| + 1 && tr[0] == s
    decreases |ops|
  {
    if ops == [] then [s] else [s] + Trace(Next(s, ops[0], writable), ops[1..], writable)
  }

  lemma {:induction false} TraceSteps(s: State, ops: seq<Op>, writable: bool, k: nat)
    requires Sound(s) && k < |ops|
    ensures var tr := Trace(s, ops, writable);
            && Sound(tr[k]) && tr[k + 1] == Next(tr[k], ops[k], writable)
            && tr[k].dtype == s.dtype && |tr[k].items| == |s.items|
    decreases k
  {
    if k == 0 {
    } else {
      TraceSteps(Next(s, ops[0], writable), ops[1..], writable, k - 1);
    }
  }

  function Last(s: State, ops: seq<Op>, writable: bool): (t: State)
    requires Sound(s)
  {
    Trace(s, ops, writable)[|ops|]
  }

  lemma NextChanges(s: State, op: Op, writable: bool)
    requires Sound(s)
    ensures var t := Next(s, op, writable);
            && (!Hits(s, op) ==> t.items == s.items)
            && t.flushed == if Puts(s, op, writable) then Some(s.items) else s.flushed
  {
  }

  lemma NextAlike(s: State, op: Op, op': Op, writable: bool)
    requires Sound(s) && AlikeOffRoot(s, op, op')
    ensures Next(s, op, writable) == Next(s, op', writable)
  {
  }

  // ----- whole runs -----

  /** As long as no assignment hits them the opened array's items stay the same. */
  lemma {:induction false} ItemsKept(s: State, ops: seq<Op>, writable: bool, m: nat, n: nat)
    requires Sound(s) && m <= n <= |ops|
    requires forall k :: m <= k < n ==> !Hits(Trace(s, ops, writable)[k], ops[k])
    ensures Trace(s, ops, writable)[n].items == Trace(s, ops, writable)[m].items
    decreases n
  {
    if n == m {
    } else {
      var tr := Trace(s, ops, writable);
      ItemsKept(s, ops, writable, m, n - 1);
      TraceSteps(s, ops, writable, n - 1);
      NextChanges(tr[n - 1], ops[n - 1], writable);
    }
  }

  /** As long as no call puts the items into the file what was last flushed stays the same. */
  lemma {:induction false} FlushedKept(s: State, ops: seq<Op>, writable: bool, m: nat, n: nat)
    requires Sound(s) && m <= n <= |ops|
    requires forall k :: m <= k < n ==> !Puts(Trace(s, ops, writable)[k], ops[k], writable)
    ensures Trace(s, ops, writable)[n].flushed == Trace(s, ops, writable)[m].flushed
    decreases n
  {
    if n == m {
    } else {
      var tr := Trace(s, ops, writable);
      FlushedKept(s, ops, writable, m, n - 1);
      TraceSteps(s, ops, writable, n - 1);
      NextChanges(tr[n - 1], ops[n - 1], writable);
    }
  }

  /** Call k puts the items into the file and no later one does. */
  ghost predicate LastPut(tr: seq<State>, ops: seq<Op>, writable: bool, k: nat)
    requires |tr| == |ops| + 1
  {
    && k < |ops| && Puts(tr[k], ops[k], writable)
    && forall j :: k < j < |ops| ==> !Puts(tr[j], ops[j], writable)
  }

  /**
    What the file holds in the end: the opened array's items at the moment of the last call that
    put them there, or, without such a call, what it held before.
   */
  lemma LastFlush(s: State, ops: seq<Op>, writable: bool)
    requires Sound(s)
    ensures var tr := Trace(s, ops, writable);
            && (forall k: nat :: LastPut(tr, ops, writable, k) ==>
                  Last(s, ops, writable).flushed == Some(tr[k].items))
            && ((forall k: nat :: !LastPut(tr, ops, writable, k)) ==> Last(s, ops, writable).flushed == s.flushed)
  {
    var tr := Trace(s, ops, writable);
    forall k: nat | LastPut(tr, ops, writable, k)
      ensures Last(s, ops, writable).flushed == Some(tr[k].items)
    {
      TraceSteps(s, ops, writable, k);
      NextChanges(tr[k], ops[k], writable);
      FlushedKept(s, ops, writable, k + 1, |ops|);
    }
    if forall k: nat :: !LastPut(tr, ops, writable, k) {
      NoPut(tr, ops, writable, |ops|);
      FlushedKept(s, ops, writable, 0, |ops|);
    }
  }

  lemma {:induction false} NoPut(tr: seq<State>, ops: seq<Op>, writable: bool, n: nat)
    requires |tr| == |ops| + 1 && n <= |ops|
    requires forall k: nat :: !LastPut(tr, ops, writable, k)
    ensures forall j :: |ops| - n <= j < |ops| ==> !Puts(tr[j], ops[j], writable)
  {
    if n == 0 {
    } else {
      NoPut(tr, ops, writable, n - 1);
      assert !LastPut(tr, ops, writable, |ops| - n);
    }
  }

  /**
    The two calls do the same, except for what they assign to data that is not the opened
    array's: other positions, other values, or a copy made of other elements.
   */
  predicate AlikeOffRoot(s: State, op: Op, op': Op) {
    || op == op'
    || (op.i == op'.i < |s.objs| && !s.objs[op.i].overRoot && (op.SetItem? || op.Fill?) && (op'.SetItem? || op'.Fill?))
    || (op.CopyOf? && op'.CopyOf? && op.i == op'.i && op.dt == op'.dt && Effective(s, op) && Effective(s, op'))
  }

  /** Data held by copies never reaches the file: runs that differ only in it keep the same items and flush the same. */
  lemma {:induction false} CopiesNeverReachFile(s: State, ops: seq<Op>, ops': seq<Op>, writable: bool)
    requires Sound(s) && |ops| == |ops'|
    requires forall k :: 0 <= k < |ops| ==> AlikeOffRoot(Trace(s, ops, writable)[k], ops[k], ops'[k])
    ensures Trace(s, ops, writable) == Trace(s, ops', writable)
    decreases |ops|
  {
    if ops == [] {
    } else {
      var t := Next(s, ops[0], writable);
      assert AlikeOffRoot(Trace(s, ops, writable)[0], ops[0], ops'[0]);
      NextAlike(s, ops[0], ops'[0], writable);
      AlikeRest(Trace(s, ops, writable), Trace(t, ops[1..], writable), ops, ops');
      CopiesNeverReachFile(t, ops[1..], ops'[1..], writable);
    }
  }

  lemma AlikeRest(tr: seq<State>, rest: seq<State>, ops: seq<Op>, ops': seq<Op>)
    requires |tr| == |ops| + 1 && |ops| == |ops'| > 0 && rest == tr[1..]
    requires forall k :: 0 <= k < |ops| ==> AlikeOffRoot(tr[k], ops[k], ops'[k])
    ensures forall k :: 0 <= k < |ops| - 1 ==> AlikeOffRoot(rest[k], ops[1..][k], ops'[1..][k])
  {
    forall k | 0 <= k < |ops| - 1
      ensures AlikeOffRoot(rest[k], ops[1..][k], ops'[1..][k])
    {
      assert AlikeOffRoot(tr[k + 1], ops[k + 1], ops'[k + 1]);
    }
  }

  // ----- what is derived from a copy -----

  /** What a call creates is over the opened array's items, or leads back to it, only if its target was or did. */
  lemma CreatedApart(a: Obj, op: Op)
    requires Creates(op) && Applicable(op, a.dtype, |a.cells|) && |a.cells| == Prod(a.shape)
    ensures Created(a, op).overRoot ==> a.overRoot
    ensures Created(a, op).toRoot <==>
              a.toRoot && !op.Flatten? && !op.CopyOf? && (op.Ravel? ==> Consecutive(a.cells))
  {
  }

  /** Call k creates object j. */
  ghost predicate Makes(tr: seq<State>, ops: seq<Op>, k: nat, j: nat)
    requires |tr| == |ops| + 1
  {
    k < |ops| && Creates(ops[k]) && Effective(tr[k], ops[k]) && |tr[k].objs| == j
  }

  /** Object j is object i, or was created from an object that descends from it. */
  ghost predicate Descends(tr: seq<State>, ops: seq<Op>, i: nat, j: nat)
    requires |tr| == |ops| + 1
    decreases j
  {
    j == i || exists k: nat :: Makes(tr, ops, k, j) && Descends(tr, ops, i, ops[k].i)
  }

  lemma {:induction false} ObjsKept(s: State, ops: seq<Op>, writable: bool, m: nat, n: nat)
    requires Sound(s) && m <= n <= |ops|
    ensures Trace(s, ops, writable)[m].objs <= Trace(s, ops, writable)[n].objs
    decreases n
  {
    if n == m {
    } else {
      ObjsKept(s, ops, writable, m, n - 1);
      TraceSteps(s, ops, writable, n - 1);
    }
  }

  /** Call k's target and what it created, as they still are in the end. */
  lemma MadeFrom(s: State, ops: seq<Op>, writable: bool, k: nat, j: nat)
    requires Sound(s) && Makes(Trace(s, ops, writable), ops, k, j)
    ensures var objs, op := Last(s, ops, writable).objs, ops[k];
            && op.i < j < |objs| && Applicable(op, objs[op.i].dtype, |objs[op.i].cells|)
            && |objs[op.i].cells| == Prod(objs[op.i].shape) && objs[j] == Created(objs[op.i], op)
  {
    var tr := Trace(s, ops, writable);
    TraceSteps(s, ops, writable, k);
    ObjsKept(s, ops, writable, k, |ops|);
    ObjsKept(s, ops, writable, k + 1, |ops|);
    assert SoundObj(tr[k].objs[ops[k].i], tr[k].dtype, |tr[k].items|);
  }

  /** Over a whole run, nothing that descends from a copy shows the opened array's items or leads back to it. */
  lemma {:induction false} CopiesStayApart(s: State, ops: seq<Op>, writable: bool, i: nat, j: nat)
    requires Sound(s) && i < |Last(s, ops, writable).objs| && Descends(Trace(s, ops, writable), ops, i, j)
    ensures var objs := Last(s, ops, writable).objs;
            && j < |objs|
            && (objs[j].overRoot ==> objs[i].overRoot)
            && (objs[j].toRoot ==> objs[i].toRoot)
    decreases j
  {
    if j == i {
    } else {
      var tr := Trace(s, ops, writable);
      var k: nat :| Makes(tr, ops, k, j) && Descends(tr, ops, i, ops[k].i);
      MadeFrom(s, ops, writable, k, j);
      CopiesStayApart(s, ops, writable, i, ops[k].i);
      CreatedApart(Last(s, ops, writable).objs[ops[k].i], ops[k]);
    }
  }
}
