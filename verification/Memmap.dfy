/** A file-backed array: a window of a file decoded on opening and encoded again by flush. */
module Memmap {
  import opened Sequences
  import opened Wrappers
  import opened Arith
  import opened RowMajor
  import opened Codec
  import opened Layout

  datatype Mode = ReadOnly | CopyOnWrite | ReadWrite | Overwrite

  datatype Error =
    | BadMode | UnsupportedDType | ShapeRequired | FileNotFound
    | NotAMultiple | CannotMap | CannotDecode | CannotReshape | DestinationIsReadOnly

  /** The short and the long spelling of each mode. */
  function ParseMode(s: string): (m: Option<Mode>) {
    if s == "r" || s == "readonly" then Some(ReadOnly)
    else if s == "c" || s == "copyonwrite" then Some(CopyOnWrite)
    else if s == "r+" || s == "readwrite" then Some(ReadWrite)
    else if s == "w+" || s == "write" then Some(Overwrite)
    else None
  }

  lemma ModeSpelled(s: string)
    ensures ParseMode(s) == Some(ReadOnly) <==> s == "r" || s == "readonly"
    ensures ParseMode(s) == Some(CopyOnWrite) <==> s == "c" || s == "copyonwrite"
    ensures ParseMode(s) == Some(ReadWrite) <==> s == "r+" || s == "readwrite"
    ensures ParseMode(s) == Some(Overwrite) <==> s == "w+" || s == "write"
  {
    assert "w+"[0] == 'w' && "c"[0] == 'c';
  }

  predicate Writable(m: Mode) {
    m == ReadWrite || m == Overwrite
  }

  // ----- the file and its mapping -----

  class File {
    var present: bool
    var bytes: seq<Byte>

    constructor (present: bool, bytes: seq<Byte>)
      ensures this.present == present && this.bytes == bytes
    {
      this.present := present;
      this.bytes := bytes;
    }
  }

  /** A mapping of len bytes of a file from position start on. */
  datatype Mapping = Mapping(file: File, start: nat, len: nat)

  /** The length mmap.mmap maps for a requested length and offset; length 0 asks for the rest of the file. */
  function MapLength(size: nat, length: int, start: int): (len: Option<nat>) {
    if length < 0 || start < 0 then None
    else if length == 0 then (if start < size then Some(size - start) else None)
    else if start + length <= size then Some(length)
    else None
  }

  /** Writing one zero byte at position n - 1 of a shorter file. */
  function Extended(bytes: seq<Byte>, n: int): (r: seq<Byte>)
    ensures bytes <= r && |r| == if n > |bytes| then n else |bytes|
    ensures forall k :: |bytes| <= k < |r| ==> r[k] == 0
  {
    if n > |bytes| then bytes + Repeat(0, n - |bytes|) else bytes
  }

  /** mm[lo:hi] for lo >= 0, with Python's clipping and its negative stops. */
  function Sub(bytes: seq<Byte>, lo: nat, hi: int): (r: seq<Byte>) {
    var n := |bytes|;
    var end := if hi < 0 then (if hi + n < 0 then 0 else hi + n) else if hi > n then n else hi;
    if lo >= end then [] else bytes[lo..end]
  }

  function Splice(bytes: seq<Byte>, at: nat, raw: seq<Byte>): (r: seq<Byte>)
    requires at + |raw| <= |bytes|
    ensures |r| == |bytes|
    ensures r[at..at + |raw|] == raw
    ensures forall k :: 0 <= k < |bytes| && !(at <= k < at + |raw|) ==> r[k] == bytes[k]
  {
    bytes[..at] + raw + bytes[at + |raw|..]
  }

  // ----- array data: a storage shared by views -----

  class Storage {
    const dtype: DType
    const size: nat
    var items: seq<Item>

    ghost predicate Valid()
      reads this
    {
      |items| == size && AllFit(dtype, items)
    }

    constructor (dtype: DType, items: seq<Item>)
      requires AllFit(dtype, items)
      ensures Valid() && this.dtype == dtype && this.size == |items| && this.items == items
    {
      this.dtype := dtype;
      this.size := |items|;
      this.items := items;
    }
  }

  /** An array over a storage: row-major element k lives in cell cells[k]. */
  datatype View = View(store: Storage, shape: seq<nat>, cells: seq<nat>) {
    ghost predicate Fitting() {
      |cells| == Prod(shape) && forall k :: 0 <= k < |cells| ==> cells[k] < store.size
    }

    function Elements(): (r: seq<Item>)
      requires Fitting() && store.Valid()
      reads store
      ensures |r| == |cells| && forall k :: 0 <= k < |r| ==> r[k] == store.items[cells[k]]
      ensures AllFit(store.dtype, r)
    {
      var items := store.items;
      seq(|cells|, k requires 0 <= k < |cells| => items[cells[k]])
    }

    predicate Contiguous() {
      Consecutive(cells)
    }
  }

  /** C_CONTIGUOUS: the row-major elements lie next to each other. */
  predicate Consecutive(cells: seq<nat>) {
    forall k :: 0 <= k < |cells| ==> cells[k] == cells[0] + k
  }

  function Iota(n: nat): (r: seq<nat>)
    ensures |r| == n && forall k :: 0 <= k < n ==> r[k] == k
  {
    seq(n, k => k)
  }

  /** The cells of the selected elements: their own ones if the storage is shared, else those of a new storage. */
  function Taken(cells: seq<nat>, sel: seq<nat>, shares: bool): (r: seq<nat>)
    requires forall k :: 0 <= k < |sel| ==> sel[k] < |cells|
    ensures |r| == |sel|
    ensures shares ==> forall k :: 0 <= k < |r| ==> r[k] == cells[sel[k]]
    ensures !shares ==> forall k :: 0 <= k < |r| ==> r[k] == k
  {
    if shares then seq(|sel|, k requires 0 <= k < |sel| => cells[sel[k]]) else Iota(|sel|)
  }

  /** Giving every one of the cells the value. */
  function Filled(items: seq<Item>, cells: seq<nat>, value: Item): (r: seq<Item>)
    ensures |r| == |items|
    ensures forall c :: 0 <= c < |r| ==> r[c] == if c in cells then value else items[c]
  {
    seq(|items|, c requires 0 <= c < |items| => if c in cells then value else items[c])
  }

  /** Assigning vals to the selected positions one after the other. */
  function Written(items: seq<Item>, cells: seq<nat>, sel: seq<nat>, vals: seq<Item>): (r: seq<Item>)
    requires |sel| == |vals|
    requires forall k :: 0 <= k < |sel| ==> sel[k] < |cells|
    requires forall k :: 0 <= k < |cells| ==> cells[k] < |items|
    ensures |r| == |items|
    decreases |sel|
  {
    if sel == [] then items
    else Written(items[cells[sel[0]] := vals[0]], cells, sel[1..], vals[1..])
  }

  lemma {:induction false} WrittenFits(dt: DType, items: seq<Item>, cells: seq<nat>, sel: seq<nat>, vals: seq<Item>)
    requires |sel| == |vals|
    requires forall k :: 0 <= k < |sel| ==> sel[k] < |cells|
    requires forall k :: 0 <= k < |cells| ==> cells[k] < |items|
    requires AllFit(dt, items) && AllFit(dt, vals)
    ensures AllFit(dt, Written(items, cells, sel, vals))
    decreases |sel|
  {
    if sel == [] {
    } else {
      WrittenFits(dt, items[cells[sel[0]] := vals[0]], cells, sel[1..], vals[1..]);
    }
  }

  /** A cell no selected position refers to keeps its item; one that only position j refers to gets vals[j]. */
  lemma {:induction false} WrittenAt(items: seq<Item>, cells: seq<nat>, sel: seq<nat>, vals: seq<Item>, c: nat)
    requires |sel| == |vals| && c < |items|
    requires forall k :: 0 <= k < |sel| ==> sel[k] < |cells|
    requires forall k :: 0 <= k < |cells| ==> cells[k] < |items|
    ensures (forall k :: 0 <= k < |sel| ==> cells[sel[k]] != c) ==> Written(items, cells, sel, vals)[c] == items[c]
    ensures forall j :: 0 <= j < |sel| && cells[sel[j]] == c && (forall k :: j < k < |sel| ==> cells[sel[k]] != c) ==>
              Written(items, cells, sel, vals)[c] == vals[j]
    decreases |sel|
  {
    if sel == [] {
    } else {
      WrittenAt(items[cells[sel[0]] := vals[0]], cells, sel[1..], vals[1..], c);
      assert forall k :: 1 <= k < |sel| ==> sel[k] == sel[1..][k - 1];
    }
  }

  // ----- which calls open -----

  /**
    When opening succeeds. A given shape always opens for writing; for reading the window must
    lie in a non-empty file. Without a shape the rest of the file must be a whole number of items.
   */
  predicate Opens(size: Option<nat>, mode: Mode, dt: DType, offset: int, shape: Option<seq<nat>>) {
    && offset >= 0
    && match mode
       case Overwrite => shape.Some?
       case _ =>
         && size.Some?
         && (match shape
             case Some(s) => mode == ReadWrite || offset + Prod(s) * ItemSize(dt) <= size.value
             case None => offset <= size.value && (size.value - offset) % ItemSize(dt) == 0)
         && (mode == ReadWrite || size.value > 0)
  }

  // ----- the window -----

  datatype Window = Window(start: int, length: int)

  /** Mappings start at multiples of the granularity; an empty one at a boundary moves one granule back. */
  function WindowOf(offset: int, nbytes: int, granularity: nat): (w: Window)
    requires granularity > 0
  {
    var start := offset - offset % granularity;
    var length := nbytes - start;
    if length == 0 && start > 0 then Window(start - granularity, length + granularity) else Window(start, length)
  }

  /**
    A window starts at a multiple of the granularity, less than one granule before the offset; it is
    never empty behind the start of the file, for which it may start one granule earlier.
   */
  lemma WindowAligned(offset: int, nbytes: int, granularity: nat)
    requires granularity > 0
    ensures var w := WindowOf(offset, nbytes, granularity);
            && w.start % granularity == 0
            && w.start + w.length == nbytes
            && w.start <= offset
            && (w.start < 0 <==> offset < 0)
            && (w.length == 0 ==> w.start <= 0)
            && (offset - granularity < w.start || (offset - 2 * granularity < w.start && w.length == granularity))
  {
    var q := offset / granularity;
    DivModDef(offset, granularity);
    var start := offset - offset % granularity;
    DivModUnique(start, q, 0, granularity);
    Distribute(q - 1, 1, granularity);
    DivModUnique(start - granularity, q - 1, 0, granularity);
    DivBound(offset, granularity, 0);
    if q >= 0 {
      MulMono(0, q, granularity);
    } else {
      MulMono(q, -1, granularity);
    }
    if start > 0 {
      if q <= 0 {
        MulMono(q, 0, granularity);
      }
      MulMono(1, q, granularity);
    }
  }

  datatype Loaded = Loaded(start: nat, len: nat, arrayOffset: nat, items: seq<Item>)

  /** Mapping the window, cutting the array out of it and decoding it. */
  function Load(bytes: seq<Byte>, dt: DType, offset: int, count: int, nbytes: int, granularity: nat)
    : (r: Result<Loaded, Error>)
    requires granularity > 0
  {
    WindowAligned(offset, nbytes, granularity);
    LoadWindow(bytes, dt, offset, count, WindowOf(offset, nbytes, granularity))
  }

  function LoadWindow(bytes: seq<Byte>, dt: DType, offset: int, count: int, w: Window): (r: Result<Loaded, Error>)
    requires w.start <= offset && (w.start < 0 <==> offset < 0)
  {
    var len := MapLength(|bytes|, w.length, w.start);
    if len.None? then Failure(CannotMap)
    else
      var arrayOffset := offset - w.start;
      var mapped := bytes[w.start..w.start + len.value];
      var raw := Sub(mapped, arrayOffset, arrayOffset + count * ItemSize(dt));
      var items := Decode(raw, dt, count);
      if items.Failure? then Failure(CannotDecode)
      else Success(Loaded(w.start, len.value, arrayOffset, items.value))
  }

  /**
    Loading succeeds exactly when the window lies in a non-empty file. The mapping then starts at
    a multiple of the granularity, ends at nbytes, contains the array, and the decoded items are
    those at offset in the file.
   */
  lemma LoadIff(bytes: seq<Byte>, dt: DType, offset: int, count: int, nbytes: int, granularity: nat)
    requires granularity > 0
    requires count >= 0 ==> nbytes >= offset + count * ItemSize(dt)
    ensures var r := Load(bytes, dt, offset, count, nbytes, granularity);
            && (r.Success? <==> offset >= 0 && count >= 0 && nbytes <= |bytes| && |bytes| > 0)
            && (r.Success? ==> IsWindow(r.value, bytes, dt, offset, count, nbytes, granularity))
  {
    MapIff(|bytes|, offset, nbytes, granularity);
    if offset >= 0 && count >= 0 {
      MulMono(0, count, ItemSize(dt));
      if nbytes <= |bytes| && |bytes| > 0 {
        LoadContents(bytes, dt, offset, count, nbytes, granularity, count * ItemSize(dt));
      }
    }
  }

  lemma LoadContents(bytes: seq<Byte>, dt: DType, offset: nat, count: nat, nbytes: nat, granularity: nat, need: nat)
    requires granularity > 0 && need == count * ItemSize(dt) && offset + need <= nbytes <= |bytes| && |bytes| > 0
    ensures var r := Load(bytes, dt, offset, count, nbytes, granularity);
            r.Success? && IsWindow(r.value, bytes, dt, offset, count, nbytes, granularity)
  {
    MapInside(|bytes|, offset, nbytes, granularity);
    WindowLoads(bytes, dt, offset, count, nbytes, granularity, need, WindowOf(offset, nbytes, granularity));
  }

  lemma WindowLoads(bytes: seq<Byte>, dt: DType, offset: nat, count: nat, nbytes: nat, granularity: nat, need: nat,
                    w: Window)
    requires granularity > 0 && need == count * ItemSize(dt) && offset + need <= nbytes <= |bytes| && |bytes| > 0
    requires 0 <= w.start <= offset && w.start % granularity == 0
    requires var len := MapLength(|bytes|, w.length, w.start);
             len.Some? && w.start + len.value == if nbytes == 0 then |bytes| else nbytes
    ensures var r := LoadWindow(bytes, dt, offset, count, w);
            r.Success? && IsWindow(r.value, bytes, dt, offset, count, nbytes, granularity)
  {
    LoadWindowContents(bytes, dt, offset, count, need, w);
    WindowFacts(LoadWindow(bytes, dt, offset, count, w).value, bytes, dt, offset, count, nbytes, granularity, need);
  }

  lemma WindowFacts(l: Loaded, bytes: seq<Byte>, dt: DType, offset: nat, count: nat, nbytes: nat, granularity: nat,
                    need: nat)
    requires granularity > 0 && need == count * ItemSize(dt) && offset + need <= nbytes <= |bytes|
    requires l.start <= offset && l.start % granularity == 0 && l.arrayOffset == offset - l.start
    requires l.start + l.len == if nbytes == 0 then |bytes| else nbytes
    requires Decode(bytes[offset..offset + need], dt, count) == Success(l.items)
    ensures IsWindow(l, bytes, dt, offset, count, nbytes, granularity)
  {
  }

  lemma MapInside(size: nat, offset: nat, nbytes: nat, granularity: nat)
    requires granularity > 0 && offset <= nbytes <= size && size > 0
    ensures var w := WindowOf(offset, nbytes, granularity);
            var len := MapLength(size, w.length, w.start);
            && 0 <= w.start <= offset && w.start % granularity == 0 && len.Some?
            && w.start + len.value == if nbytes == 0 then size else nbytes
  {
    MapIff(size, offset, nbytes, granularity);
  }

  lemma LoadWindowContents(bytes: seq<Byte>, dt: DType, offset: nat, count: nat, need: nat, w: Window)
    requires need == count * ItemSize(dt) && 0 <= w.start <= offset
    requires var len := MapLength(|bytes|, w.length, w.start);
             len.Some? && offset + need <= w.start + len.value <= |bytes|
    ensures var r, raw := LoadWindow(bytes, dt, offset, count, w), bytes[offset..offset + need];
            && r.Success? && Decode(raw, dt, count) == Success(r.value.items)
            && r.value.start == w.start && r.value.arrayOffset == offset - w.start
            && Some(r.value.len) == MapLength(|bytes|, w.length, w.start)
  {
    var len := MapLength(|bytes|, w.length, w.start).value;
    CutAndDecode(bytes, dt, offset, count, need, w.start, len);
  }

  lemma CutAndDecode(bytes: seq<Byte>, dt: DType, offset: nat, count: nat, need: nat, start: nat, len: nat)
    requires need == count * ItemSize(dt) && start <= offset && offset + need <= start + len <= |bytes|
    ensures var raw := bytes[offset..offset + need];
            && Decode(raw, dt, count).Success?
            && Decode(Sub(bytes[start..start + len], offset - start, offset - start + need), dt, count)
               == Decode(raw, dt, count)
  {
    CutOut(bytes, offset, need, start, len);
  }

  lemma MapIff(size: nat, offset: int, nbytes: int, granularity: nat)
    requires granularity > 0
    ensures var w := WindowOf(offset, nbytes, granularity);
            var len := MapLength(size, w.length, w.start);
            && (offset < 0 ==> len.None?)
            && (offset >= 0 && nbytes >= offset ==> (len.Some? <==> nbytes <= size && size > 0))
            && (len.Some? ==> w.start % granularity == 0 && 0 <= w.start <= offset)
            && (len.Some? ==> w.start + len.value == if w.length == 0 then size else nbytes)
            && (len.Some? ==> w.length == 0 ==> nbytes == 0)
            && (len.Some? && nbytes == 0 && w.length != 0 ==> false)
  {
    WindowAligned(offset, nbytes, granularity);
  }

  lemma CutOut(bytes: seq<Byte>, offset: nat, need: nat, start: nat, len: nat)
    requires start <= offset && offset + need <= start + len <= |bytes|
    ensures Sub(bytes[start..start + len], offset - start, offset - start + need) == bytes[offset..offset + need]
  {
    var mapped := bytes[start..start + len];
    var lo := offset - start;
    var cut, wanted := mapped[lo..lo + need], bytes[offset..offset + need];
    forall k | 0 <= k < |cut|
      ensures cut[k] == wanted[k]
    {
      assert mapped[lo + k] == bytes[start + (lo + k)];
    }
    assert cut == wanted;
  }

  ghost predicate IsWindow(l: Loaded, bytes: seq<Byte>, dt: DType, offset: int, count: int, nbytes: int,
                           granularity: nat)
  {
    && granularity > 0 && l.start % granularity == 0
    && l.start <= offset && l.arrayOffset == offset - l.start
    && l.start + l.len == (if nbytes == 0 then |bytes| else nbytes)
    && 0 <= count
    && 0 <= offset <= offset + count * ItemSize(dt) <= l.start + l.len <= |bytes|
    && |l.items| == count && AllFit(dt, l.items)
    && Decode(bytes[offset..offset + count * ItemSize(dt)], dt, count) == Success(l.items)
  }

  /** _prod. */
  method Product(shape: seq<nat>) returns (n: nat)
    ensures n == Prod(shape)
  {
    n := 1;
    for k := 0 to |shape|
      invariant n == Prod(shape[..k])
    {
      assert shape[..k + 1] == shape[..k] + [shape[k]];
      ProdAppend(shape[..k], [shape[k]]);
      assert [shape[k]][1..] == [];
      n := n * shape[k];
    }
    assert shape[..|shape|] == shape;
  }

  // ----- memmap objects -----

  /** A freshly decoded array of the given shape: the items in reading order. */
  ghost predicate InReadingOrder(o: Order, view: View) {
    && view.Fitting() && |view.cells| == view.store.size
    && FlatRead(o, view.shape, view.cells) == Iota(view.store.size)
  }

  /** The element at a multi-index lives in the cell at the sum of its entries, each times the stride of its axis. */
  ghost predicate ByOffset(o: Order, view: View) {
    && view.Fitting()
    && forall idx: seq<nat> :: InBounds(view.shape, idx) ==>
         view.cells[Ravel(view.shape, idx)] == Offset(o, view.shape, idx, |view.shape|) < view.store.size
  }

  lemma ReadingOrderMeans(o: Order, view: View)
    requires InReadingOrder(o, view)
    ensures ByOffset(o, view)
  {
    forall idx: seq<nat> | InBounds(view.shape, idx)
      ensures view.cells[Ravel(view.shape, idx)] == Offset(o, view.shape, idx, |view.shape|) < view.store.size
    {
      FlatReadAt(o, view.shape, view.cells, idx);
    }
  }

  /** Contiguous means that each element lies right behind the one before it. */
  lemma {:induction false} ConsecutiveIff(cells: seq<nat>)
    ensures Consecutive(cells) <==> forall k :: 0 < k < |cells| ==> cells[k] == cells[k - 1] + 1
  {
    if |cells| <= 1 {
    } else {
      var m := |cells| - 1;
      ConsecutiveIff(cells[..m]);
      assert cells[m - 1] == cells[..m][m - 1];
    }
  }

  /** An array just opened is contiguous: always in C order, and in F order unless two axes are longer than one. */
  lemma OpenedContiguousIff(o: Order, view: View)
    requires InReadingOrder(o, view)
    ensures view.Contiguous() <==> o == C || Prod(view.shape) == 0 || OneLongAxis(view.shape)
  {
    OrdersAgreeIff(view.shape);
    if o == C || Prod(view.shape) == 0 || OneLongAxis(view.shape) {
      ContiguousIfRanks(o, view);
    } else if view.Contiguous() {
      forall idx: seq<nat> | InBounds(view.shape, idx)
        ensures Rank(F, view.shape, idx) == Rank(C, view.shape, idx)
      {
        RankIfContiguous(o, view, idx);
      }
    }
  }

  lemma CellIsRank(o: Order, view: View, idx: seq<nat>)
    requires InReadingOrder(o, view) && InBounds(view.shape, idx)
    ensures view.cells[Ravel(view.shape, idx)] == Rank(o, view.shape, idx)
  {
    FlatReadAtRank(o, view.shape, view.cells, idx);
  }

  lemma RankIfContiguous(o: Order, view: View, idx: seq<nat>)
    requires InReadingOrder(o, view) && view.Contiguous() && InBounds(view.shape, idx)
    ensures Rank(o, view.shape, idx) == Rank(C, view.shape, idx)
  {
    CellIsRank(o, view, idx);
    CellIsRank(o, view, Place(o, view.shape, 0));
  }

  lemma ContiguousIfRanks(o: Order, view: View)
    requires InReadingOrder(o, view)
    requires forall idx: seq<nat> :: InBounds(view.shape, idx) ==> Rank(o, view.shape, idx) == Rank(C, view.shape, idx)
    ensures view.Contiguous()
  {
    forall k | 0 <= k < |view.cells|
      ensures view.cells[k] == k
    {
      CellIsRank(o, view, Unravel(view.shape, k));
    }
  }

  /** The shape asked for, or one axis over all items. */
  function Dims(shape: Option<seq<nat>>, count: nat): seq<nat> {
    match shape
    case Some(s) => s
    case None => [count]
  }

  lemma ViewInReadingOrder(o: Order, store: Storage, shape: seq<nat>)
    requires Prod(shape) == store.size
    ensures Prod([store.size]) == store.size
    ensures InReadingOrder(o, View(store, shape, Reshaped(o, [store.size], Iota(store.size), shape)))
    ensures shape == [store.size] ==> InReadingOrder(o, View(store, shape, Iota(store.size)))
  {
    ReadOneAxis(o, Iota(store.size));
    ReshapeKeepsReading(o, [store.size], Iota(store.size), shape);
    ReshapedBelow(o, store.size, shape);
  }

  lemma ReshapedBelow(o: Order, n: nat, shape: seq<nat>)
    requires Prod(shape) == n == Prod([n])
    ensures var cells := Reshaped(o, [n], Iota(n), shape);
            forall k :: 0 <= k < |cells| ==> cells[k] < n
  {
    ReadOneAxis(o, Iota(n));
    var cells := Reshaped(o, [n], Iota(n), shape);
    forall k | 0 <= k < |cells|
      ensures cells[k] < n
    {
      assert cells[k] == Iota(n)[Rank(o, shape, Unravel(shape, k))];
    }
  }

  class Memmap {
    const view: View
    const file: File?
    const mode: Option<Mode>
    const offset: Option<int>
    const order: Order
    const base: Memmap?
    const mm: Option<Mapping>
    const arrayOffset: nat
    /** How far the object is from the end of its chain of bases. */
    ghost const depth: nat

    constructor (view: View, file: File?, mode: Option<Mode>, offset: Option<int>, order: Order,
                 base: Memmap?, mm: Option<Mapping>, arrayOffset: nat)
      ensures this.view == view && this.file == file && this.mode == mode && this.offset == offset
      ensures this.order == order && this.base == base && this.mm == mm && this.arrayOffset == arrayOffset
      ensures this.depth == if base == null then 0 else base.depth + 1
    {
      this.view := view;
      this.file := file;
      this.mode := mode;
      this.offset := offset;
      this.order := order;
      this.base := base;
      this.mm := mm;
      this.arrayOffset := arrayOffset;
      this.depth := if base == null then 0 else base.depth + 1;
    }

    /** Following base from this object ends. */
    ghost predicate Linked()
      decreases depth
    {
      base != null ==> base.depth < depth && base.Linked()
    }

    /** The object at the end of the chain of bases. */
    ghost function Root(): Memmap
      requires Linked()
      decreases depth
    {
      if base == null then this else base.Root()
    }

    /** An object opened from a file: its window lies in its mapping, which lies in the file. */
    ghost predicate Opened()
      reads view.store, if mm.Some? then {mm.value.file} else {}
    {
      && base == null && mm.Some? && mode.Some? && offset.Some? && file == mm.value.file && file.present
      && view.store.Valid() && InReadingOrder(order, view)
      && offset.value == mm.value.start + arrayOffset
      && arrayOffset + Need() <= mm.value.len
      && mm.value.start + mm.value.len <= |file.bytes| && |file.bytes| > 0
    }

    /** Bytes the items take in the file. */
    ghost function Need(): nat {
      view.store.size * ItemSize(view.store.dtype)
    }

    /** What an open in the given mode yields: the items of the window, reachable through an aligned mapping. */
    ghost predicate OpenedAs(f: File, m: Mode, dt: DType, at: int, o: Order, dims: seq<nat>, nbytes: int,
                             granularity: nat)
      reads view.store, f, if mm.Some? then {mm.value.file} else {}
    {
      && Opened() && file == f && mode == Some(m) && offset == Some(at) && order == o
      && view.store.dtype == dt && view.shape == dims && ByOffset(o, view)
      && granularity > 0 && mm.value.start % granularity == 0
      && mm.value.start + mm.value.len == (if nbytes == 0 then |f.bytes| else nbytes)
      && Decode(f.bytes[at..at + Need()], dt, view.store.size) == Success(view.store.items)
    }

    /** Mapping the window and decoding the items, once the file has its final size. */
    static method MapFile(file: File, mode: Mode, dt: DType, offset: int, shape: Option<seq<nat>>, order: Order,
                          granularity: nat, count: int, nbytes: int)
      returns (r: Result<Memmap, Error>)
      requires granularity > 0 && file.present
      requires count >= 0 ==> nbytes >= offset + count * ItemSize(dt) && Prod(Dims(shape, count)) == count
      ensures r.Success? <==> offset >= 0 && count >= 0 && nbytes <= |file.bytes| && |file.bytes| > 0
      ensures r.Success? ==> fresh(r.value) && fresh(r.value.view.store) && r.value.view.store.size == count
      ensures r.Success? ==>
                r.value.OpenedAs(file, mode, dt, offset, order, Dims(shape, count), nbytes, granularity)
    {
      var loaded := ReadWindow(file, dt, offset, count, nbytes, granularity);
      if loaded.Failure? {
        return Failure(loaded.error);
      }
      var view := NewArray(dt, loaded.value.items, Dims(shape, count), order);
      var m := new Memmap(view, file, Some(mode), Some(offset), order, null,
                          Some(Mapping(file, loaded.value.start, loaded.value.len)), loaded.value.arrayOffset);
      return Success(m);
    }

    static method ReadWindow(file: File, dt: DType, offset: int, count: int, nbytes: int, granularity: nat)
      returns (r: Result<Loaded, Error>)
      requires granularity > 0 && (count >= 0 ==> nbytes >= offset + count * ItemSize(dt))
      ensures r.Success? <==> offset >= 0 && count >= 0 && nbytes <= |file.bytes| && |file.bytes| > 0
      ensures r.Success? ==> IsWindow(r.value, file.bytes, dt, offset, count, nbytes, granularity)
    {
      LoadIff(file.bytes, dt, offset, count, nbytes, granularity);
      r := Load(file.bytes, dt, offset, count, nbytes, granularity);
    }

    /** array(flat), reshaped unless it already has the shape asked for. */
    static method NewArray(dt: DType, items: seq<Item>, dims: seq<nat>, order: Order) returns (view: View)
      requires AllFit(dt, items) && Prod(dims) == |items|
      ensures fresh(view.store) && view.store.Valid() && view.store.dtype == dt && view.store.items == items
      ensures view.shape == dims && InReadingOrder(order, view) && ByOffset(order, view)
    {
      var store := new Storage(dt, items);
      ViewInReadingOrder(order, store, dims);
      var cells := Iota(|items|);
      if dims != [|items|] {
        cells := Reshaped(order, [|items|], cells, dims);
      }
      view := View(store, dims, cells);
      ReadingOrderMeans(order, view);
    }

    /**
      memmap.__new__. Opening succeeds exactly when Opens says so. Reading modes leave the file
      alone; 'r+' at most appends zeros; 'w+' leaves nothing but zeros.
     */
    static method Open(file: File, spelling: string, dtype: Option<DType>, offset: int,
                       shape: Option<seq<nat>>, order: Order, granularity: nat)
      returns (r: Result<Memmap, Error>)
      requires granularity > 0
      modifies file
      ensures r.Success? <==>
                && ParseMode(spelling).Some? && dtype.Some?
                && Opens(if old(file.present) then Some(|old(file.bytes)|) else None,
                         ParseMode(spelling).value, dtype.value, offset, shape)
      ensures FileEffect(ParseMode(spelling), dtype.Some? && shape.Some?,
                         old(file.present), old(file.bytes), file.present, file.bytes)
      ensures r.Success? ==>
                var m, mode := r.value, ParseMode(spelling).value;
                && fresh(m) && fresh(m.view.store)
                && m.OpenedAs(file, mode, dtype.value, offset, order, Dims(shape, m.view.store.size),
                              WindowEnd(mode, offset + m.Need()), granularity)
                && (shape.None? ==> offset + m.Need() == |old(file.bytes)|)
                && (mode == ReadWrite || mode == Overwrite ==>
                      file.bytes == Extended(if mode == Overwrite then [] else old(file.bytes),
                                             Max(offset + m.Need(), 1)))
      ensures r.Success? ==>
                && (r.value.mode == Some(ReadOnly) <==> spelling == "r" || spelling == "readonly")
                && (r.value.mode == Some(CopyOnWrite) <==> spelling == "c" || spelling == "copyonwrite")
                && (r.value.mode == Some(ReadWrite) <==> spelling == "r+" || spelling == "readwrite")
                && (r.value.mode == Some(Overwrite) <==> spelling == "w+" || spelling == "write")
    {
      ModeSpelled(spelling);
      var mode := ParseMode(spelling);
      if mode.None? {
        return Failure(BadMode);
      }
      if dtype.None? {
        return Failure(UnsupportedDType);
      }
      if mode.value == Overwrite && shape.None? {
        return Failure(ShapeRequired);
      }
      if mode.value == Overwrite {
        file.present, file.bytes := true, [];
      } else if !file.present {
        return Failure(FileNotFound);
      }
      r := OpenSized(file, mode.value, dtype.value, offset, shape, order, granularity);
    }

    /** The rest of memmap.__new__, once the file is open (and empty for 'w+'). */
    static method OpenSized(file: File, mode: Mode, dt: DType, offset: int,
                            shape: Option<seq<nat>>, order: Order, granularity: nat)
      returns (r: Result<Memmap, Error>)
      requires granularity > 0 && file.present && (mode == Overwrite ==> shape.Some? && file.bytes == [])
      modifies file`bytes
      ensures r.Success? <==> Opens(Some(|old(file.bytes)|), mode, dt, offset, shape)
      ensures FileEffect(Some(mode), shape.Some?, true, old(file.bytes), true, file.bytes)
      ensures r.Success? ==>
                var m := r.value;
                && fresh(m) && fresh(m.view.store)
                && m.OpenedAs(file, mode, dt, offset, order, Dims(shape, m.view.store.size),
                              WindowEnd(mode, offset + m.Need()), granularity)
                && (shape.None? ==> offset + m.Need() == |old(file.bytes)|)
                && (Writable(mode) ==> file.bytes == Extended(old(file.bytes), WindowEnd(mode, offset + m.Need())))
    {
      var flen := |file.bytes|;
      var count, nbytes := CountItems(flen, dt, offset, shape, mode);
      if count.None? {
        return Failure(NotAMultiple);
      }
      r := ExtendAndMap(file, mode, dt, offset, shape, order, granularity, count.value, nbytes);
    }

    /**
      The number of items, the product of the extents or as many as the rest of the file holds
      exactly; and where they end in the file.
     */
    static method CountItems(flen: nat, dt: DType, offset: int, shape: Option<seq<nat>>, ghost mode: Mode)
      returns (count: Option<int>, nbytes: int)
      requires mode == Overwrite ==> shape.Some?
      ensures count.None? ==> !Opens(Some(flen), mode, dt, offset, shape)
      ensures count.Some? ==> Countable(flen, mode, dt, offset, shape, count.value, nbytes)
    {
      nbytes := 0;
      if shape.None? {
        if (flen - offset) % ItemSize(dt) != 0 {
          return None, nbytes;
        }
        count := Some((flen - offset) / ItemSize(dt));
      } else {
        var n := Product(shape.value);
        count := Some(n);
      }
      OpensIff(flen, mode, dt, offset, shape, count.value);
      nbytes := offset + count.value * ItemSize(dt);
    }

    /** The file extended for the window if it may be written, then mapped. */
    static method ExtendAndMap(file: File, mode: Mode, dt: DType, offset: int, shape: Option<seq<nat>>, order: Order,
                               granularity: nat, count: int, nbytes: int)
      returns (r: Result<Memmap, Error>)
      requires granularity > 0 && file.present && (mode == Overwrite ==> file.bytes == [])
      requires nbytes == offset + count * ItemSize(dt)
      requires count >= 0 ==> nbytes >= offset && Prod(Dims(shape, count)) == count
      modifies file`bytes
      ensures r.Success? <==>
                && offset >= 0 && count >= 0
                && (Writable(mode) || (nbytes <= |old(file.bytes)| && old(file.bytes) != []))
      ensures FileEffect(Some(mode), true, true, old(file.bytes), true, file.bytes)
      ensures r.Success? ==>
                var m := r.value;
                && fresh(m) && fresh(m.view.store) && offset + m.Need() == nbytes
                && m.OpenedAs(file, mode, dt, offset, order, Dims(shape, m.view.store.size),
                              WindowEnd(mode, offset + m.Need()), granularity)
                && (Writable(mode) ==> file.bytes == Extended(old(file.bytes), WindowEnd(mode, offset + m.Need())))
    {
      if Writable(mode) {
        file.bytes := Extended(file.bytes, Max(nbytes, 1));
      }
      r := MapFile(file, mode, dt, offset, shape, order, granularity, count, WindowEnd(mode, nbytes));
    }

    // ----- derived objects -----

    /** _as_view: keeps the file identity and remembers this object as its base. */
    method AsView(data: View) returns (out: Memmap)
      requires Linked()
      ensures fresh(out) && out.Linked() && out.Root() == Root() && out.base == this
      ensures out.view == data && out.mode == mode && out.file == file && out.offset == offset
      ensures out.order == order && out.mm == None
    {
      out := new Memmap(data, file, mode, offset, order, this, None, 0);
    }

    /** _as_copy, and the copying reshape that still records its source as base. */
    method AsCopy(data: View, source: Memmap?) returns (out: Memmap)
      requires source != null ==> source.Linked()
      ensures fresh(out) && out.Linked() && out.Root() == (if source == null then out else source.Root())
      ensures out.view == data && out.base == source
      ensures out.mode == None && out.file == null && out.offset == None && out.mm == None
    {
      out := new Memmap(data, null, None, None, order, source, None, 0);
    }

    /** The selected elements as an array: over the same storage, or gathered into a new one. */
    method Select(sel: seq<nat>, shape: seq<nat>, shares: bool) returns (data: View)
      requires view.Fitting() && view.store.Valid()
      requires |sel| == Prod(shape) && forall k :: 0 <= k < |sel| ==> sel[k] < |view.cells|
      ensures data.Fitting() && data.store.Valid() && data.shape == shape
      ensures data.store.dtype == view.store.dtype
      ensures if shares then data.store == view.store else fresh(data.store)
      ensures data.cells == Taken(view.cells, sel, shares)
      ensures forall k :: 0 <= k < |sel| ==>
                data.store.items[data.cells[k]] == view.store.items[view.cells[sel[k]]]
    {
      if shares {
        data := View(view.store, shape, Taken(view.cells, sel, true));
      } else {
        var elements := view.Elements();
        var gathered := seq(|sel|, k requires 0 <= k < |sel| => elements[sel[k]]);
        var store := new Storage(view.store.dtype, gathered);
        data := View(store, shape, Iota(|sel|));
      }
    }

    /** __getitem__ with an array-shaped result, and the axis permutations: basic keys share, advanced keys copy. */
    method GetView(sel: seq<nat>, shape: seq<nat>, basic: bool) returns (out: Memmap)
      requires Linked() && view.Fitting() && view.store.Valid()
      requires |sel| == Prod(shape) && forall k :: 0 <= k < |sel| ==> sel[k] < |view.cells|
      ensures fresh(out) && out.Linked() && out.Root() == Root() && out.mm == None && out.mode == mode
      ensures out.view.Fitting() && out.view.store.Valid() && out.view.shape == shape
      ensures if basic then out.view.store == view.store else fresh(out.view.store)
      ensures out.view.cells == Taken(view.cells, sel, basic) && out.view.store.dtype == view.store.dtype
      ensures forall k :: 0 <= k < |sel| ==>
                out.view.store.items[out.view.cells[k]] == view.store.items[view.cells[sel[k]]]
    {
      var data := Select(sel, shape, basic);
      out := AsView(data);
    }

    /** The array library's reshape: the reading order o is kept. */
    method ReshapeData(shape: seq<nat>, o: Order, shares: bool) returns (data: View)
      requires view.Fitting() && view.store.Valid() && Prod(shape) == |view.cells|
      ensures data.Fitting() && data.store.Valid() && data.shape == shape
      ensures if shares then data.store == view.store else fresh(data.store)
      ensures data.store.dtype == view.store.dtype
      ensures data.cells == Taken(view.cells, ReshapeSelection(o, view.shape, shape), shares)
      ensures FlatRead(o, shape, data.Elements()) == FlatRead(o, view.shape, view.Elements())
    {
      var sel := ReshapeSelection(o, view.shape, shape);
      data := Select(sel, shape, shares);
      ViewMoved(o, view, sel, data);
    }

    /**
      reshape. Whether the result shares the storage is decided by the array library (shares);
      whether it keeps the file identity is decided by this array's contiguity alone.
     */
    method Reshape(shape: seq<nat>, o: Order, shares: bool) returns (r: Result<Memmap, Error>)
      requires Linked() && view.Fitting() && view.store.Valid()
      ensures r.Success? <==> Prod(shape) == |view.cells|
      ensures r.Success? ==>
                var out := r.value;
                && fresh(out) && out.Linked() && out.Root() == Root() && out.base == this && out.mm == None
                && out.view.Fitting() && out.view.store.Valid() && out.view.shape == shape
                && (if shares then out.view.store == view.store else fresh(out.view.store))
                && out.mode == (if view.Contiguous() then mode else None)
                && out.view.store.dtype == view.store.dtype
                && out.view.cells == Taken(view.cells, ReshapeSelection(o, view.shape, shape), shares)
                && FlatRead(o, shape, out.view.Elements()) == FlatRead(o, view.shape, view.Elements())
    {
      if Prod(shape) != |view.cells| {
        return Failure(CannotReshape);
      }
      var data := ReshapeData(shape, o, shares);
      var out: Memmap;
      if view.Contiguous() {
        out := AsView(data);
      } else {
        out := AsCopy(data, this);
      }
      return Success(out);
    }

    /** The array library's ravel and flatten. */
    method RavelData(o: Order, shares: bool) returns (data: View)
      requires view.Fitting() && view.store.Valid()
      ensures data.Fitting() && data.store.Valid() && data.shape == [|view.cells|]
      ensures if shares then data.store == view.store else fresh(data.store)
      ensures data.store.dtype == view.store.dtype
      ensures data.cells == Taken(view.cells, RavelSelection(o, view.shape), shares)
      ensures data.Elements() == FlatRead(o, view.shape, view.Elements())
    {
      var sel := RavelSelection(o, view.shape);
      data := Select(sel, [|sel|], shares);
      ViewRead(o, view, sel, data);
    }

    /** ravel. */
    method Ravel(o: Order, shares: bool) returns (out: Memmap)
      requires Linked() && view.Fitting() && view.store.Valid()
      ensures fresh(out) && out.Linked() && out.mm == None
      ensures out.Root() == if view.Contiguous() then Root() else out
      ensures out.mode == if view.Contiguous() then mode else None
      ensures out.view.Fitting() && out.view.store.Valid() && out.view.shape == [|view.cells|]
      ensures if shares then out.view.store == view.store else fresh(out.view.store)
      ensures out.view.store.dtype == view.store.dtype
      ensures out.view.cells == Taken(view.cells, RavelSelection(o, view.shape), shares)
      ensures out.view.Elements() == FlatRead(o, view.shape, view.Elements())
    {
      var data := RavelData(o, shares);
      if view.Contiguous() {
        out := AsView(data);
      } else {
        out := AsCopy(data, null);
      }
    }

    /** flatten always copies. */
    method Flatten(o: Order) returns (out: Memmap)
      requires Linked() && view.Fitting() && view.store.Valid()
      ensures fresh(out) && out.Linked() && out.Root() == out && out.mm == None && out.mode == None
      ensures out.view.Fitting() && out.view.store.Valid() && fresh(out.view.store)
      ensures out.view.shape == [|view.cells|] && out.view.cells == Iota(|view.cells|)
      ensures out.view.store.dtype == view.store.dtype
      ensures out.view.Elements() == FlatRead(o, view.shape, view.Elements())
    {
      var data := RavelData(o, false);
      out := AsCopy(data, null);
    }

    /** copy and astype: a new storage holding the given (converted) elements. */
    method CopyOf(dt: DType, elements: seq<Item>) returns (out: Memmap)
      requires view.Fitting() && |elements| == |view.cells| && AllFit(dt, elements)
      ensures fresh(out) && out.Linked() && out.Root() == out && out.mm == None && out.mode == None
      ensures out.view.Fitting() && out.view.store.Valid() && fresh(out.view.store)
      ensures out.view.shape == view.shape && out.view.Elements() == elements && out.view.store.dtype == dt
      ensures out.view.cells == Iota(|elements|)
    {
      var store := new Storage(dt, elements);
      out := AsCopy(View(store, view.shape, Iota(|elements|)), null);
    }

    // ----- writing -----

    /** __setitem__: refused for mode 'r', otherwise the selected elements are assigned in order. */
    method SetItem(sel: seq<nat>, vals: seq<Item>) returns (r: Result<(), Error>)
      requires view.Fitting() && view.store.Valid()
      requires |sel| == |vals| && AllFit(view.store.dtype, vals)
      requires forall k :: 0 <= k < |sel| ==> sel[k] < |view.cells|
      modifies view.store
      ensures r.Failure? <==> mode == Some(ReadOnly)
      ensures view.store.Valid()
      ensures view.store.items ==
              if r.Failure? then old(view.store.items) else Written(old(view.store.items), view.cells, sel, vals)
    {
      if mode == Some(ReadOnly) {
        return Failure(DestinationIsReadOnly);
      }
      WrittenFits(view.store.dtype, view.store.items, view.cells, sel, vals);
      var items, k := view.store.items, 0;
      while k < |sel|
        invariant 0 <= k <= |sel| && |items| == view.store.size
        invariant Written(items, view.cells, sel[k..], vals[k..]) == Written(view.store.items, view.cells, sel, vals)
      {
        items := items[view.cells[sel[k]] := vals[k]];
        k := k + 1;
      }
      view.store.items := items;
      return Success(());
    }

    /** fill. */
    method Fill(value: Item) returns (r: Result<(), Error>)
      requires view.Fitting() && view.store.Valid() && Fits(view.store.dtype, value)
      modifies view.store
      ensures r.Failure? <==> mode == Some(ReadOnly)
      ensures view.store.Valid()
      ensures view.store.items ==
              if r.Failure? then old(view.store.items) else Filled(old(view.store.items), view.cells, value)
    {
      if mode == Some(ReadOnly) {
        return Failure(DestinationIsReadOnly);
      }
      view.store.items := Filled(view.store.items, view.cells, value);
      return Success(());
    }

    /**
      flush: from any derived object, the root's current items replace the root's window of the
      file if the root was opened for writing; otherwise nothing happens.
     */
    method Flush()
      requires Linked() && (Root().mm.Some? ==> Root().Opened())
      modifies if Root().mm.Some? && Writable(Root().mode.value) then {Root().file} else {}
      ensures Root().mm.Some? ==> Root().Opened()
      ensures Root().mm.Some? && (Root().mode == Some(ReadWrite) || Root().mode == Some(Overwrite)) ==>
                Root().file.bytes ==
                Splice(old(Root().file.bytes), Root().offset.value,
                       Encoded(Root().view.store.dtype, Root().view.store.items))
      ensures Root().mm.Some? && (Root().mode == Some(ReadOnly) || Root().mode == Some(CopyOnWrite)) ==>
                Root().file.bytes == old(Root().file.bytes)
    {
      var root: Memmap := this;
      while root.base != null
        invariant root.Linked() && root.Root() == Root()
        decreases root.depth
      {
        root := root.base;
      }
      if root.mm.None? || !(root.mode == Some(ReadWrite) || root.mode == Some(Overwrite)) {
        return;
      }
      var flat := FlatRead(root.order, root.view.shape, root.view.Elements());
      FlatReadIsStorage(root.order, root.view);
      var raw := Encode(flat, root.view.store.dtype);
      var mm := root.mm.value;
      mm.file.bytes := Splice(mm.file.bytes, mm.start + root.arrayOffset, raw);
    }
  }

  /** Where the mapping of a window ending at nbytes ends: writable ones are never empty. */
  function WindowEnd(mode: Mode, nbytes: int): int {
    if Writable(mode) then Max(nbytes, 1) else nbytes
  }

  /** An element of an opened array is the item decoded at the sum of its indices times the strides of its axes. */
  lemma OpenedElement(m: Memmap, f: File, mode: Mode, dt: DType, at: int, o: Order, dims: seq<nat>, nbytes: int,
                      granularity: nat, idx: seq<nat>)
    requires m.OpenedAs(f, mode, dt, at, o, dims, nbytes, granularity) && InBounds(dims, idx)
    ensures m.view.shape == dims && m.view.Fitting() && m.view.store.Valid()
    ensures 0 <= at <= at + m.Need() <= |f.bytes|
    ensures var decoded := Decode(f.bytes[at..at + m.Need()], dt, m.view.store.size);
            && decoded.Success? && Offset(o, dims, idx, |dims|) < |decoded.value|
            && m.view.Elements()[Ravel(dims, idx)] == decoded.value[Offset(o, dims, idx, |dims|)]
  {
    assert m.view.cells[Ravel(dims, idx)] == Offset(o, dims, idx, |dims|);
  }

  /** What opening may do to the file, successful or not. */
  ghost predicate FileEffect(mode: Option<Mode>, complete: bool,
                             wasPresent: bool, was: seq<Byte>, present: bool, bytes: seq<Byte>) {
    match mode
    case Some(ReadWrite) =>
      present == wasPresent && was <= bytes && forall k :: |was| <= k < |bytes| ==> bytes[k] == 0
    case Some(Overwrite) =>
      if complete then present && forall k :: 0 <= k < |bytes| ==> bytes[k] == 0
      else present == wasPresent && bytes == was
    case _ => present == wasPresent && bytes == was
  }

  predicate Counted(flen: nat, dt: DType, offset: int, shape: Option<seq<nat>>, count: int) {
    match shape
    case Some(s) => count == Prod(s)
    case None => (flen - offset) % ItemSize(dt) == 0 && count == (flen - offset) / ItemSize(dt)
  }

  /** Without a shape the items counted are the rest of the file. */
  lemma CountFacts(flen: nat, dt: DType, offset: int, shape: Option<seq<nat>>, count: int)
    requires Counted(flen, dt, offset, shape, count)
    ensures shape.None? ==> offset + count * ItemSize(dt) == flen && (count >= 0 <==> offset <= flen)
    ensures count >= 0 ==> count * ItemSize(dt) >= 0 && Prod(Dims(shape, count)) == count
  {
    DivModDef(flen - offset, ItemSize(dt));
    DivBound(flen - offset, ItemSize(dt), 0);
    if count >= 0 {
      MulMono(0, count, ItemSize(dt));
      ReadOneAxis(C, Iota(count));
    }
  }

  /** So many items are asked for, ending there; and whether the call opens depends on them alone. */
  ghost predicate Countable(flen: nat, mode: Mode, dt: DType, offset: int, shape: Option<seq<nat>>, count: int,
                            nbytes: int) {
    && nbytes == offset + count * ItemSize(dt)
    && (shape.None? ==> nbytes == flen)
    && (count >= 0 ==> nbytes >= offset && Prod(Dims(shape, count)) == count)
    && (Opens(Some(flen), mode, dt, offset, shape) <==>
          && offset >= 0 && count >= 0
          && (Writable(mode) || (nbytes <= flen && flen > 0)))
  }

  lemma OpensIff(flen: nat, mode: Mode, dt: DType, offset: int, shape: Option<seq<nat>>, count: int)
    requires Counted(flen, dt, offset, shape, count) && (mode == Overwrite ==> shape.Some?)
    ensures Countable(flen, mode, dt, offset, shape, count, offset + count * ItemSize(dt))
  {
    CountFacts(flen, dt, offset, shape, count);
  }

  /** Reading an opened array in its own order lists its storage from the first item to the last. */
  lemma FlatReadIsStorage(o: Order, view: View)
    requires view.store.Valid() && InReadingOrder(o, view)
    ensures FlatRead(o, view.shape, view.Elements()) == view.store.items
  {
    ReadThrough(o, view.shape, view.cells, view.store.items, view.Elements());
  }

  lemma ReshapeSelects(o: Order, shape: seq<nat>, target: seq<nat>)
    requires Prod(shape) == Prod(target)
    ensures var sel := Reshaped(o, shape, Iota(Prod(shape)), target);
            forall k :: 0 <= k < |sel| ==> sel[k] < Prod(shape)
  {
    var flat := FlatRead(o, shape, Iota(Prod(shape)));
    forall r | 0 <= r < |flat|
      ensures flat[r] < Prod(shape)
    {
      assert flat[r] == Iota(Prod(shape))[Ravel(shape, Place(o, shape, r))];
    }
  }

  /** The positions a reshape takes the elements from. */
  function ReshapeSelection(o: Order, shape: seq<nat>, target: seq<nat>): (sel: seq<nat>)
    requires Prod(shape) == Prod(target)
    ensures |sel| == Prod(target) && forall k :: 0 <= k < |sel| ==> sel[k] < Prod(shape)
  {
    ReshapeSelects(o, shape, target);
    Reshaped(o, shape, Iota(Prod(shape)), target)
  }

  /** The positions a ravel takes the elements from. */
  function RavelSelection(o: Order, shape: seq<nat>): (sel: seq<nat>)
    ensures |sel| == Prod(shape) == Prod([|sel|]) && forall k :: 0 <= k < |sel| ==> sel[k] < Prod(shape)
  {
    ReadOneAxis(o, Iota(Prod(shape)));
    FlatRead(o, shape, Iota(Prod(shape)))
  }

  lemma ViewRead(o: Order, view: View, sel: seq<nat>, data: View)
    requires view.Fitting() && view.store.Valid() && data.Fitting() && data.store.Valid()
    requires |data.cells| == |view.cells| && sel == RavelSelection(o, view.shape)
    requires forall k :: 0 <= k < |sel| ==>
               sel[k] < |view.cells| && data.store.items[data.cells[k]] == view.store.items[view.cells[sel[k]]]
    ensures data.Elements() == FlatRead(o, view.shape, view.Elements())
  {
    ReadThrough(o, view.shape, Iota(|view.cells|), view.Elements(), view.Elements());
  }

  lemma ViewMoved(o: Order, view: View, sel: seq<nat>, data: View)
    requires view.Fitting() && view.store.Valid() && data.Fitting() && data.store.Valid()
    requires Prod(data.shape) == |view.cells| && sel == ReshapeSelection(o, view.shape, data.shape)
    requires forall k :: 0 <= k < |sel| ==>
               sel[k] < |view.cells| && data.store.items[data.cells[k]] == view.store.items[view.cells[sel[k]]]
    ensures FlatRead(o, data.shape, data.Elements()) == FlatRead(o, view.shape, view.Elements())
  {
    ReadMoved(o, view.shape, view.Elements(), data.shape, sel, data.Elements());
  }

  lemma ReadMoved<T>(o: Order, shape: seq<nat>, data: seq<T>, target: seq<nat>, sel: seq<nat>, moved: seq<T>)
    requires |moved| == |data| == Prod(shape) == Prod(target) && sel == Reshaped(o, shape, Iota(|data|), target)
    requires forall k :: 0 <= k < |sel| ==> sel[k] < |data| && moved[k] == data[sel[k]]
    ensures FlatRead(o, target, moved) == FlatRead(o, shape, data)
  {
    ReshapeThrough(o, shape, data, target);
    assert moved == Reshaped(o, shape, data, target);
    ReshapeKeepsReading(o, shape, data, target);
  }

  lemma ReshapeThrough<T>(o: Order, shape: seq<nat>, data: seq<T>, target: seq<nat>)
    requires |data| == Prod(shape) == Prod(target)
    ensures var sel := Reshaped(o, shape, Iota(|data|), target);
            forall k :: 0 <= k < |data| ==> sel[k] < |data| && Reshaped(o, shape, data, target)[k] == data[sel[k]]
  {
    ReshapeSelects(o, shape, target);
    ReadThrough(o, shape, Iota(|data|), data, data);
  }
}
