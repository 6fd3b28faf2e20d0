/** Whole runs over one opened file: what reaches it, and that reopening reads it back. */
module MemmapRuns {
  import opened Wrappers
  import opened Arith
  import opened RowMajor
  import opened Codec
  import opened Layout
  import opened Memmap
  import opened MemmapTrace
  import opened MemmapProtection

  ghost function AbsOf(o: Memmap, root: Memmap): Obj
    requires o.Linked()
  {
    Obj(o.view.store == root.view.store, o.Root() == root, o.mode, o.view.store.dtype, o.view.shape, o.view.cells)
  }

  /** The object is the one described; if it does not lead back to the opened one, it leads to a copy without a file. */
  ghost predicate Shows(o: Memmap, root: Memmap, a: Obj)
    reads o.view.store
  {
    && o.Linked() && o.view.Fitting() && o.view.store.Valid()
    && (o.Root() == root || o.Root().mm == None)
    && AbsOf(o, root) == a
  }

  /** The objects, the opened object's items and its file are those of the state. */
  ghost predicate Mirrors(objs: seq<Memmap>, root: Memmap, was: seq<Byte>, s: State)
    reads root.view.store, root.file, set k | 0 <= k < |objs| :: objs[k].view.store
  {
    && |objs| == |s.objs| && (forall k :: 0 <= k < |objs| ==> Shows(objs[k], root, s.objs[k]))
    && s.dtype == root.view.store.dtype && s.items == root.view.store.items
    && root.file != null && root.offset.Some? && FlushFits(was, root.offset.value, s)
    && root.file.bytes == FileAfter(was, root.offset.value, s.dtype, s.flushed)
  }

  ghost predicate FlushFits(was: seq<Byte>, at: int, s: State) {
    && at >= 0 && AllFit(s.dtype, s.items) && at + |s.items| * ItemSize(s.dtype) <= |was|
    && (s.flushed.Some? ==> |s.flushed.value| == |s.items| && AllFit(s.dtype, s.flushed.value))
  }

  /** The opened object alone, with nothing flushed yet. */
  ghost function Begin(root: Memmap): (s: State)
    requires root.Linked() && root.Opened()
    reads root.view.store, if root.mm.Some? then {root.mm.value.file} else {}
    ensures Sound(s)
  {
    State([AbsOf(root, root)], root.view.store.dtype, root.view.store.items, None)
  }

  /** An array opened read-only starts out protected. */
  lemma OpenedProtected(root: Memmap)
    requires root.Linked() && root.Opened()
    ensures Protected(Begin(root)) <==> root.mode == Some(ReadOnly)
  {
    assert Begin(root).objs[0] == AbsOf(root, root);
  }

  /** The file after some items were last flushed into the window. */
  ghost function FileAfter(was: seq<Byte>, at: int, dt: DType, flushed: Option<seq<Item>>): (bytes: seq<Byte>)
    requires flushed.Some? ==> at >= 0 && AllFit(dt, flushed.value) && at + |flushed.value| * ItemSize(dt) <= |was|
    ensures |bytes| == |was|
    ensures flushed.Some? ==> forall k :: 0 <= k < |was| && !(at <= k < at + |flushed.value| * ItemSize(dt)) ==>
              bytes[k] == was[k]
  {
    match flushed
    case None => was
    case Some(items) => Splice(was, at, Encoded(dt, items))
  }

  lemma SpliceTwice(was: seq<Byte>, at: nat, first: seq<Byte>, second: seq<Byte>)
    requires |first| == |second| && at + |first| <= |was|
    ensures Splice(Splice(was, at, first), at, second) == Splice(was, at, second)
  {
  }

  lemma FlushAgain(was: seq<Byte>, at: nat, dt: DType, before: Option<seq<Item>>, items: seq<Item>)
    requires AllFit(dt, items) && at + |items| * ItemSize(dt) <= |was|
    requires before.Some? ==> |before.value| == |items| && AllFit(dt, before.value)
    ensures Splice(FileAfter(was, at, dt, before), at, Encoded(dt, items)) == FileAfter(was, at, dt, Some(items))
  {
    if before.Some? {
      SpliceTwice(was, at, Encoded(dt, before.value), Encoded(dt, items));
    }
  }

  /**
    Any sequence of calls on the opened object and everything derived from it: the objects, the
    opened object's items and the file end up as in the pure run.
   */
  method Run(root: Memmap, ops: seq<Op>) returns (objs: seq<Memmap>)
    requires root.Linked() && root.Opened()
    modifies root.view.store, root.file
    ensures root.Opened()
    ensures Mirrors(objs, root, old(root.file.bytes),
                    Last(old(Begin(root)), ops, root.mode == Some(ReadWrite) || root.mode == Some(Overwrite)))
  {
    objs := [root];
    ghost var was, writable := root.file.bytes, Writable(root.mode.value);
    ghost var tr := Trace(Begin(root), ops, writable);
    for n := 0 to |ops|
      invariant root.Opened() && Mirrors(objs, root, was, tr[n]) && Sound(tr[n])
      invariant forall k :: 0 <= k < |objs| ==> objs[k].view.store == root.view.store || fresh(objs[k].view.store)
    {
      TraceSteps(old(Begin(root)), ops, writable, n);
      objs := Step(root, objs, ops[n], was, tr[n]);
    }
  }

  /** One call. */
  method Step(root: Memmap, objs: seq<Memmap>, op: Op, ghost was: seq<Byte>, ghost s: State) returns (out: seq<Memmap>)
    requires root.Linked() && root.Opened() && Sound(s) && Mirrors(objs, root, was, s)
    modifies if op.i < |objs| then {objs[op.i].view.store} else {}, root.file
    ensures root.Opened() && Mirrors(out, root, was, Next(s, op, Writable(root.mode.value)))
    ensures objs <= out
    ensures forall k :: |objs| <= k < |out| ==>
              fresh(out[k].view.store) || (op.i < |objs| && out[k].view.store == objs[op.i].view.store)
  {
    out := objs;
    if op.i >= |objs| || !Applicable(op, objs[op.i].view.store.dtype, |objs[op.i].view.cells|) {
      assert op.i < |objs| ==> Shows(objs[op.i], root, s.objs[op.i]);
    } else if op.SetItem? || op.Fill? {
      AssignStep(root, objs, op, was, s);
    } else if op.Flush? {
      FlushStep(root, objs, op, was, s);
    } else {
      out := DeriveStep(root, objs, op, was, s);
    }
  }

  method AssignStep(root: Memmap, objs: seq<Memmap>, op: Op, ghost was: seq<Byte>, ghost s: State)
    requires root.Linked() && root.Opened() && Sound(s) && Mirrors(objs, root, was, s)
    requires op.i < |objs| && Applicable(op, objs[op.i].view.store.dtype, |objs[op.i].view.cells|)
    requires op.SetItem? || op.Fill?
    modifies objs[op.i].view.store
    ensures root.Opened() && Mirrors(objs, root, was, Next(s, op, Writable(root.mode.value)))
  {
    assert Shows(objs[op.i], root, s.objs[op.i]);
    NextAssigns(s, op);
    Assign(root, objs[op.i], op, s.objs[op.i]);
  }

  lemma NextAssigns(s: State, op: Op)
    requires Sound(s) && Effective(s, op) && (op.SetItem? || op.Fill?)
    ensures forall w :: Next(s, op, w) == s.(items := Assigned(s.objs[op.i], op, s.items))
    ensures AllFit(s.dtype, Assigned(s.objs[op.i], op, s.items))
  {
    AssignedFits(s, op);
  }

  method FlushStep(root: Memmap, objs: seq<Memmap>, op: Op, ghost was: seq<Byte>, ghost s: State)
    requires root.Linked() && root.Opened() && Sound(s) && Mirrors(objs, root, was, s)
    requires op.i < |objs| && op.Flush?
    modifies root.file
    ensures root.Opened() && Mirrors(objs, root, was, Next(s, op, Writable(root.mode.value)))
  {
    assert Shows(objs[op.i], root, s.objs[op.i]);
    NextChanges(s, op, Writable(root.mode.value));
    Persist(root, objs[op.i], was, s);
  }

  method DeriveStep(root: Memmap, objs: seq<Memmap>, op: Op, ghost was: seq<Byte>, ghost s: State)
    returns (out: seq<Memmap>)
    requires root.Linked() && root.Opened() && Sound(s) && Mirrors(objs, root, was, s)
    requires op.i < |objs| && Applicable(op, objs[op.i].view.store.dtype, |objs[op.i].view.cells|) && Creates(op)
    ensures root.Opened() && Mirrors(out, root, was, Next(s, op, Writable(root.mode.value)))
    ensures objs <= out && |out| == |objs| + 1
    ensures fresh(out[|objs|].view.store) || out[|objs|].view.store == objs[op.i].view.store
  {
    assert Shows(objs[op.i], root, s.objs[op.i]);
    var c := Derive(root, objs[op.i], op, s.objs[op.i]);
    out := objs + [c];
  }

  /** The calls that assign. */
  method Assign(root: Memmap, target: Memmap, op: Op, ghost a: Obj)
    requires Shows(target, root, a) && root.view.store.Valid()
    requires (op.SetItem? || op.Fill?) && Applicable(op, a.dtype, |a.cells|)
    modifies target.view.store
    ensures target.view.store.Valid() && root.view.store.Valid()
    ensures a.overRoot ==> InRange(a.cells, root.view.store.size)
    ensures root.view.store.items == Assigned(a, op, old(root.view.store.items))
  {
    match op {
      case SetItem(_, sel, vals) =>
        var r := target.SetItem(sel, vals);
      case Fill(_, value) =>
        var r := target.Fill(value);
    }
  }

  /** A flush, through the opened object or any object that leads back to it. */
  method Persist(root: Memmap, target: Memmap, ghost was: seq<Byte>, ghost s: State)
    requires root.Linked() && root.Opened() && target.Linked() && (target.Root() == root || target.Root().mm == None)
    requires s.items == root.view.store.items && s.dtype == root.view.store.dtype
    requires FlushFits(was, root.offset.value, s)
    requires root.file.bytes == FileAfter(was, root.offset.value, s.dtype, s.flushed)
    modifies root.file
    ensures root.Opened()
    ensures root.file.bytes ==
            FileAfter(was, root.offset.value, s.dtype,
                      if target.Root() == root && Writable(root.mode.value) then Some(s.items) else s.flushed)
  {
    target.Flush();
    FlushAgain(was, root.offset.value, s.dtype, s.flushed, s.items);
  }

  /** The calls that create an object and change nothing. */
  method Derive(root: Memmap, target: Memmap, op: Op, ghost a: Obj) returns (c: Memmap)
    requires Shows(target, root, a) && Creates(op) && Applicable(op, a.dtype, |a.cells|)
    ensures Shows(c, root, Created(a, op))
    ensures c.view.store == target.view.store || fresh(c.view.store)
  {
    match op {
      case GetView(_, sel, shape, basic) =>
        c := target.GetView(sel, shape, basic);
      case Reshape(_, shape, o, shares) =>
        var r := target.Reshape(shape, o, shares);
        c := r.value;
      case Ravel(_, o, shares) =>
        c := target.Ravel(o, shares);
      case Flatten(_, o) =>
        c := target.Flatten(o);
      case CopyOf(_, dt, elements) =>
        c := target.CopyOf(dt, elements);
    }
  }

  // ----- flush, then open again -----

  lemma CellsUnique(o: Order, shape: seq<nat>, cells: seq<nat>, cells': seq<nat>)
    requires |cells| == |cells'| == Prod(shape)
    requires FlatRead(o, shape, cells) == FlatRead(o, shape, cells')
    ensures cells == cells'
  {
    forall k | 0 <= k < |cells|
      ensures cells[k] == cells'[k]
    {
      var idx := Unravel(shape, k);
      PlaceOfRank(o, shape, idx);
      assert FlatRead(o, shape, cells)[Rank(o, shape, idx)] == cells[k];
      assert FlatRead(o, shape, cells')[Rank(o, shape, idx)] == cells'[k];
    }
  }

  /** The window of a spliced file is what was spliced in. */
  lemma SplicedWindow(was: seq<Byte>, at: nat, dt: DType, items: seq<Item>)
    requires AllFit(dt, items) && at + |items| * ItemSize(dt) <= |was|
    ensures var bytes := Splice(was, at, Encoded(dt, items));
            Decode(bytes[at..at + |items| * ItemSize(dt)], dt, |items|) == Success(items)
  {
    DecodeEncoded(dt, items);
  }

  /**
    Flushing an array and opening the file again with the same dtype, offset, shape and order
    gives the same array, for every shape and both orders, and leaves the flushed file alone.
   */
  method FlushAndReopen(m: Memmap, spelling: string, granularity: nat) returns (r: Result<Memmap, Error>)
    requires m.Linked() && m.Opened() && Writable(m.mode.value)
    requires granularity > 0 && ParseMode(spelling).Some? && ParseMode(spelling) != Some(Overwrite)
    modifies m.file
    ensures r.Success?
    ensures r.value.view.Fitting() && m.view.Fitting() && r.value.view.store.Valid() && m.view.store.Valid()
    ensures r.value.view.shape == m.view.shape
    ensures r.value.view.Elements() == m.view.Elements()
    ensures m.file.bytes ==
            Splice(old(m.file.bytes), m.offset.value, Encoded(m.view.store.dtype, m.view.store.items))
  {
    assert m.Root() == m;
    m.Flush();
    SplicedWindow(old(m.file.bytes), m.offset.value, m.view.store.dtype, m.view.store.items);
    var dt, shape := m.view.store.dtype, m.view.shape;
    ghost var flushed := m.file.bytes;
    assert Opens(Some(|flushed|), ParseMode(spelling).value, dt, m.offset.value, Some(shape));
    r := Memmap.Open(m.file, spelling, Some(dt), m.offset.value, Some(shape), m.order, granularity);
    assert m.file.bytes == flushed;
    var again := r.value;
    CellsUnique(m.order, shape, m.view.cells, again.view.cells);
  }

  lemma SpliceSame(bytes: seq<Byte>, at: nat, raw: seq<Byte>)
    requires at + |raw| <= |bytes|
    ensures Splice(bytes, at, raw) == bytes <==> raw == bytes[at..at + |raw|]
  {
    if raw == bytes[at..at + |raw|] {
      assert Splice(bytes, at, raw) == bytes;
    }
  }

  /**
    Opening for writing and flushing without any assignment leaves the file as it is, if and only
    if the window holds no truth value stored as a byte other than 0 and 1.
   */
  lemma FlushUnchangedIff(bytes: seq<Byte>, at: nat, dt: DType, count: nat)
    requires at + count * ItemSize(dt) <= |bytes|
    ensures var window := bytes[at..at + count * ItemSize(dt)];
            && Decode(window, dt, count).Success?
            && (Splice(bytes, at, Encoded(dt, Decode(window, dt, count).value)) == bytes <==> Canonical(dt, window))
  {
    MulMono(0, count, ItemSize(dt));
    var window := bytes[at..at + count * ItemSize(dt)];
    EncodeDecoded(dt, window, count);
    SpliceSame(bytes, at, Encoded(dt, Decode(window, dt, count).value));
  }

  /** A truth value stored as the byte 2 comes back from a flush as the byte 1. */
  lemma TwoBecomesOne()
    ensures Decode([2], Bool, 1).Success?
    ensures Splice([2], 0, Encoded(Bool, Decode([2], Bool, 1).value)) == [1]
  {
    var bytes: seq<Byte> := [2];
    assert FromBytes(bytes) == 2 + 256 * FromBytes(bytes[1..]) && FromBytes(bytes[1..]) == 0;
    var items := Decode(bytes, Bool, 1).value;
    assert Unpack(Bool, bytes, 1) == [1] + Unpack(Bool, bytes[1..], 0);
    assert items == [Scalar(1)];
    assert Codec.Flatten(Bool, items) == [1];
    assert Pack(Bool, [1]) == PackScalar(Bool, 1) + Pack(Bool, [1][1..]);
    assert ToBytes(1, 1) == [1] + ToBytes(0, 0);
  }
}
