/** The on-disk layout of array items: fixed-size little-endian scalars, complex items as pairs. */
module Codec {
  import opened Wrappers
  import opened Arith

  type Byte = x: int | 0 <= x < 256

  datatype DType =
    | Bool | Int8 | UInt8 | Int16 | UInt16 | Int32 | UInt32 | Int64 | UInt64
    | Float16 | Float32 | Float64 | Complex64 | Complex128

  /** Bytes of one scalar. */
  function ScalarSize(dt: DType): (n: nat)
    ensures n > 0
  {
    match dt
    case Bool => 1
    case Int8 => 1
    case UInt8 => 1
    case Int16 => 2
    case UInt16 => 2
    case Int32 => 4
    case UInt32 => 4
    case Int64 => 8
    case UInt64 => 8
    case Float16 => 2
    case Float32 => 4
    case Float64 => 8
    case Complex64 => 4
    case Complex128 => 8
  }

  predicate IsComplex(dt: DType) {
    dt.Complex64? || dt.Complex128?
  }

  predicate IsSigned(dt: DType) {
    dt.Int8? || dt.Int16? || dt.Int32? || dt.Int64?
  }

  function ItemSize(dt: DType): (n: nat)
    ensures n > 0
  {
    if IsComplex(dt) then ScalarSize(dt) * 2 else ScalarSize(dt)
  }

  /** An item: an integer, a truth value as 0 or 1, or the bit pattern of a float; a pair of those if complex. */
  datatype Item = Scalar(v: int) | Pair(re: int, im: int)

  function Pow256(n: nat): (p: nat)
    ensures p > 0
  {
    if n == 0 then 1 else 256 * Pow256(n - 1)
  }

  predicate ScalarFits(dt: DType, v: int) {
    if dt.Bool? then 0 <= v <= 1
    else if IsSigned(dt) then 0 - Pow256(ScalarSize(dt)) <= 2 * v < Pow256(ScalarSize(dt))
    else 0 <= v < Pow256(ScalarSize(dt))
  }

  predicate Fits(dt: DType, item: Item) {
    match item
    case Scalar(v) => !IsComplex(dt) && ScalarFits(dt, v)
    case Pair(re, im) => IsComplex(dt) && ScalarFits(dt, re) && ScalarFits(dt, im)
  }

  ghost predicate AllFit(dt: DType, items: seq<Item>) {
    forall k :: 0 <= k < |items| ==> Fits(dt, items[k])
  }

  // ----- one scalar -----

  function ToBytes(u: int, n: nat): (bytes: seq<Byte>)
    ensures |bytes| == n
    decreases n
  {
    if n == 0 then [] else [u % 256] + ToBytes(u / 256, n - 1)
  }

  function FromBytes(bytes: seq<Byte>): (u: nat)
    ensures u < Pow256(|bytes|)
  {
    if bytes == [] then 0 else bytes[0] + 256 * FromBytes(bytes[1..])
  }

  lemma {:induction false} FromToBytes(u: int, n: nat)
    requires 0 <= u < Pow256(n)
    ensures FromBytes(ToBytes(u, n)) == u
  {
    if n == 0 {
    } else {
      FromToBytes(u / 256, n - 1);
    }
  }

  lemma {:induction false} ToFromBytes(bytes: seq<Byte>)
    ensures ToBytes(FromBytes(bytes), |bytes|) == bytes
  {
    if bytes == [] {
    } else {
      ToFromBytes(bytes[1..]);
      var rest := FromBytes(bytes[1..]);
      DivModUnique(FromBytes(bytes), rest, bytes[0], 256);
    }
  }

  /** The bytes are the digits of the number in base 256, the least significant first. */
  lemma {:induction false} FromBytesSnoc(bytes: seq<Byte>, top: Byte)
    ensures FromBytes([]) == 0
    ensures FromBytes(bytes + [top]) == FromBytes(bytes) + top * Pow256(|bytes|)
  {
    if bytes == [] {
      assert FromBytes([top]) == top + 256 * FromBytes([top][1..]);
    } else {
      assert (bytes + [top])[1..] == bytes[1..] + [top];
      FromBytesSnoc(bytes[1..], top);
      Carried(FromBytes(bytes[1..]), top, Pow256(|bytes| - 1));
    }
  }

  lemma Carried(rest: nat, top: nat, p: nat)
    ensures 256 * (rest + top * p) == 256 * rest + top * (256 * p)
  {
  }

  function PackScalar(dt: DType, v: int): (bytes: seq<Byte>)
    ensures |bytes| == ScalarSize(dt)
  {
    ToBytes(if v < 0 then v + Pow256(ScalarSize(dt)) else v, ScalarSize(dt))
  }

  function UnpackScalar(dt: DType, bytes: seq<Byte>): (v: int)
    requires |bytes| == ScalarSize(dt)
    ensures ScalarFits(dt, v)
  {
    var u := FromBytes(bytes);
    if dt.Bool? then (if u == 0 then 0 else 1)
    else if IsSigned(dt) && 2 * u >= Pow256(ScalarSize(dt)) then u - Pow256(ScalarSize(dt))
    else u
  }

  /**
    A scalar is the number its bytes make up; it is 0 or 1 for a truth value, and 256^n less than
    that number for a signed integer whose last byte has the top bit set.
   */
  lemma ScalarMeans(dt: DType, bytes: seq<Byte>)
    requires |bytes| == ScalarSize(dt)
    ensures var v, u := UnpackScalar(dt, bytes), FromBytes(bytes);
            && (dt == Bool ==> v == if bytes == [0] then 0 else 1)
            && (dt == Int8 || dt == Int16 || dt == Int32 || dt == Int64 ==>
                  v == if bytes[|bytes| - 1] >= 128 then u - Pow256(|bytes|) else u)
            && (dt != Bool && dt != Int8 && dt != Int16 && dt != Int32 && dt != Int64 ==> v == u)
  {
    var m := |bytes| - 1;
    assert bytes == bytes[..m] + [bytes[m]];
    FromBytesSnoc(bytes[..m], bytes[m]);
    TopBit(bytes[m], FromBytes(bytes[..m]), Pow256(m));
  }

  lemma TopBit(top: Byte, rest: nat, p: nat)
    requires rest < p
    ensures 2 * (rest + top * p) >= 256 * p <==> top >= 128
    ensures rest + top * p == 0 <==> rest == 0 && top == 0
  {
    if top >= 128 {
      MulMono(128, top, p);
    } else {
      MulMono(top, 127, p);
    }
    if top > 0 {
      MulMono(1, top, p);
    }
  }

  /** The bytes an item takes are those its type is named after. */
  lemma SizesOf(dt: DType)
    ensures dt == Bool || dt == Int8 || dt == UInt8 ==> ItemSize(dt) == 1
    ensures dt == Int16 || dt == UInt16 || dt == Float16 ==> ItemSize(dt) == 2
    ensures dt == Int32 || dt == UInt32 || dt == Float32 ==> ItemSize(dt) == 4
    ensures dt == Int64 || dt == UInt64 || dt == Float64 || dt == Complex64 ==> ItemSize(dt) == 8
    ensures dt == Complex128 ==> ItemSize(dt) == 16
  {
  }

  lemma UnpackPackScalar(dt: DType, v: int)
    requires ScalarFits(dt, v)
    ensures UnpackScalar(dt, PackScalar(dt, v)) == v
  {
    assert Pow256(1) == 256;
    FromToBytes(if v < 0 then v + Pow256(ScalarSize(dt)) else v, ScalarSize(dt));
  }

  /** Decoding loses something only for truth values stored as bytes other than 0 and 1. */
  predicate Canonical(dt: DType, bytes: seq<Byte>) {
    dt.Bool? ==> forall k :: 0 <= k < |bytes| ==> bytes[k] <= 1
  }

  lemma PackUnpackScalar(dt: DType, bytes: seq<Byte>)
    requires |bytes| == ScalarSize(dt)
    ensures PackScalar(dt, UnpackScalar(dt, bytes)) == bytes <==> Canonical(dt, bytes)
  {
    ToFromBytes(bytes);
    if dt.Bool? {
      assert bytes == [bytes[0]];
      assert FromBytes(bytes) == bytes[0] + 256 * FromBytes([]);
      assert ToBytes(1, 1) == [1] && ToBytes(0, 1) == [0];
    }
  }

  // ----- struct.pack and struct.unpack -----

  function Pack(dt: DType, flat: seq<int>): (bytes: seq<Byte>)
    ensures |bytes| == |flat| * ScalarSize(dt)
  {
    if flat == [] then [] else PackScalar(dt, flat[0]) + Pack(dt, flat[1..])
  }

  function Unpack(dt: DType, bytes: seq<Byte>, n: nat): (flat: seq<int>)
    requires |bytes| == n * ScalarSize(dt)
    ensures |flat| == n
    ensures forall k :: 0 <= k < n ==> ScalarFits(dt, flat[k])
  {
    if n == 0 then []
    else
      var s := ScalarSize(dt);
      SplitSize(n, s);
      [UnpackScalar(dt, bytes[..s])] + Unpack(dt, bytes[s..], n - 1)
  }

  /** The k-th scalar is read from the k-th group of bytes. */
  lemma {:induction false} UnpackAt(dt: DType, bytes: seq<Byte>, n: nat, k: nat, s: nat, at: int)
    requires s == ScalarSize(dt) && |bytes| == n * s && k < n && at == k * s
    ensures 0 <= at <= at + s <= |bytes|
    ensures Unpack(dt, bytes, n)[k] == UnpackScalar(dt, bytes[at..at + s])
  {
    UnpackHead(dt, bytes, n, s);
    GroupBounds(n, k, s, at);
    if k == 0 {
    } else {
      UnpackAt(dt, bytes[s..], n - 1, k - 1, s, at - s);
      SliceOfRest(bytes, s, at - s);
    }
  }

  lemma UnpackHead(dt: DType, bytes: seq<Byte>, n: nat, s: nat)
    requires s == ScalarSize(dt) && |bytes| == n * s && n > 0
    ensures s <= |bytes| && |bytes[s..]| == (n - 1) * s
    ensures Unpack(dt, bytes, n) == [UnpackScalar(dt, bytes[..s])] + Unpack(dt, bytes[s..], n - 1)
  {
    SplitSize(n, s);
  }

  lemma GroupBounds(n: nat, k: nat, s: nat, at: int)
    requires k < n && at == k * s
    ensures 0 <= at <= at + s <= n * s
    ensures k == 0 ==> at == 0
    ensures k > 0 ==> at - s == (k - 1) * s
  {
    MulMono(0, k, s);
    MulLeSuccessor(k, n, s);
    if k > 0 {
      SplitSize(k, s);
    }
  }

  lemma SliceOfRest(bytes: seq<Byte>, s: nat, at: nat)
    requires s + at + s <= |bytes|
    ensures bytes[s..][at..at + s] == bytes[at + s..at + s + s]
  {
  }

  lemma SplitSize(n: nat, s: nat)
    requires n > 0
    ensures n * s >= s && n * s - s == (n - 1) * s
  {
    Distribute(n - 1, 1, s);
    MulMono(1, n, s);
  }

  lemma {:induction false} UnpackPack(dt: DType, flat: seq<int>)
    requires forall k :: 0 <= k < |flat| ==> ScalarFits(dt, flat[k])
    ensures Unpack(dt, Pack(dt, flat), |flat|) == flat
  {
    if flat == [] {
    } else {
      UnpackPackScalar(dt, flat[0]);
      UnpackPack(dt, flat[1..]);
      PackSplit(dt, flat, ScalarSize(dt));
    }
  }

  lemma PackSplit(dt: DType, flat: seq<int>, s: nat)
    requires flat != [] && s == ScalarSize(dt)
    ensures |Pack(dt, flat)| >= s
    ensures Pack(dt, flat)[..s] == PackScalar(dt, flat[0]) && Pack(dt, flat)[s..] == Pack(dt, flat[1..])
  {
  }

  lemma {:induction false} PackUnpack(dt: DType, bytes: seq<Byte>, n: nat)
    requires |bytes| == n * ScalarSize(dt)
    ensures Pack(dt, Unpack(dt, bytes, n)) == bytes <==> Canonical(dt, bytes)
  {
    if n == 0 {
    } else {
      var s := ScalarSize(dt);
      SplitSize(n, s);
      var head, tail := bytes[..s], bytes[s..];
      PackUnpackScalar(dt, head);
      PackUnpack(dt, tail, n - 1);
      var first, rest := PackScalar(dt, UnpackScalar(dt, head)), Pack(dt, Unpack(dt, tail, n - 1));
      assert Pack(dt, Unpack(dt, bytes, n)) == first + rest;
      JoinParts(dt, first, rest, head, tail, bytes);
    }
  }

  lemma JoinParts(dt: DType, first: seq<Byte>, rest: seq<Byte>, head: seq<Byte>, tail: seq<Byte>, bytes: seq<Byte>)
    requires |first| == |head| <= |bytes| && head == bytes[..|head|] && tail == bytes[|head|..]
    requires (first == head <==> Canonical(dt, head)) && (rest == tail <==> Canonical(dt, tail))
    ensures first + rest == bytes <==> Canonical(dt, bytes)
  {
    assert bytes == head + tail;
    SameParts(first, rest, head, tail);
    CanonicalParts(dt, head, tail);
  }

  lemma SameParts(a: seq<Byte>, b: seq<Byte>, c: seq<Byte>, d: seq<Byte>)
    requires |a| == |c|
    ensures a + b == c + d <==> a == c && b == d
  {
    assert a == (a + b)[..|a|] && b == (a + b)[|a|..];
    assert c == (c + d)[..|a|] && d == (c + d)[|a|..];
  }

  lemma CanonicalParts(dt: DType, head: seq<Byte>, tail: seq<Byte>)
    ensures Canonical(dt, head + tail) <==> Canonical(dt, head) && Canonical(dt, tail)
  {
    var all := head + tail;
    assert forall k :: 0 <= k < |head| ==> head[k] == all[k];
    assert forall k :: 0 <= k < |tail| ==> tail[k] == all[|head| + k];
  }

  // ----- items -----

  /** The scalars of a list of items: complex items contribute their real and their imaginary part. */
  function Flatten(dt: DType, items: seq<Item>): (flat: seq<int>)
    requires AllFit(dt, items)
    ensures |flat| == if IsComplex(dt) then 2 * |items| else |items|
    ensures forall k :: 0 <= k < |flat| ==> ScalarFits(dt, flat[k])
  {
    if IsComplex(dt) then seq(2 * |items|, k requires 0 <= k < 2 * |items| => Part(dt, items[k / 2], k % 2))
    else seq(|items|, k requires 0 <= k < |items| => Part(dt, items[k], 0))
  }

  function Part(dt: DType, item: Item, k: nat): (v: int)
    requires Fits(dt, item)
    ensures ScalarFits(dt, v)
  {
    match item
    case Scalar(v) => v
    case Pair(re, im) => if k == 0 then re else im
  }

  /** The bytes of a list of items, one after the other. */
  function Encoded(dt: DType, items: seq<Item>): (bytes: seq<Byte>)
    requires AllFit(dt, items)
    ensures |bytes| == |items| * ItemSize(dt)
  {
    PairSize(|items|, ScalarSize(dt));
    Pack(dt, Flatten(dt, items))
  }

  lemma PairSize(n: nat, s: nat)
    ensures (2 * n) * s == n * (s * 2)
  {
  }

  /** The inverse of Flatten. */
  function Group(dt: DType, flat: seq<int>, count: nat): (items: seq<Item>)
    requires |flat| == if IsComplex(dt) then 2 * count else count
    requires forall k :: 0 <= k < |flat| ==> ScalarFits(dt, flat[k])
    ensures |items| == count && AllFit(dt, items)
  {
    if IsComplex(dt) then Pairs(flat, count) else Singles(flat)
  }

  function Pairs(flat: seq<int>, count: nat): (items: seq<Item>)
    requires |flat| == 2 * count
    ensures |items| == count && forall i :: 0 <= i < count ==> items[i] == Pair(flat[2 * i], flat[2 * i + 1])
  {
    seq(count, i requires 0 <= i < count => Pair(flat[2 * i], flat[2 * i + 1]))
  }

  function Singles(flat: seq<int>): (items: seq<Item>)
    ensures |items| == |flat| && forall i :: 0 <= i < |flat| ==> items[i] == Scalar(flat[i])
  {
    seq(|flat|, i requires 0 <= i < |flat| => Scalar(flat[i]))
  }

  lemma FlattenAt(dt: DType, items: seq<Item>, k: nat)
    requires AllFit(dt, items) && k < |items|
    ensures IsComplex(dt) ==> items[k] == Pair(Flatten(dt, items)[2 * k], Flatten(dt, items)[2 * k + 1])
    ensures !IsComplex(dt) ==> items[k] == Scalar(Flatten(dt, items)[k])
  {
    assert Fits(dt, items[k]);
    Halves(k);
  }

  lemma Halves(k: nat)
    ensures (2 * k) / 2 == k && (2 * k) % 2 == 0
    ensures (2 * k + 1) / 2 == k && (2 * k + 1) % 2 == 1
  {
  }

  lemma FlattenPrefix(dt: DType, items: seq<Item>, k: nat)
    requires AllFit(dt, items) && IsComplex(dt) && k < |items|
    ensures items[k].Pair?
    ensures Flatten(dt, items)[..2 * (k + 1)] == Flatten(dt, items)[..2 * k] + [items[k].re] + [items[k].im]
  {
    FlattenAt(dt, items, k);
  }

  lemma GroupFlatten(dt: DType, items: seq<Item>)
    requires AllFit(dt, items)
    ensures Group(dt, Flatten(dt, items), |items|) == items
  {
    var flat := Flatten(dt, items);
    forall k | 0 <= k < |items|
      ensures IsComplex(dt) ==> items[k] == Pair(flat[2 * k], flat[2 * k + 1])
      ensures !IsComplex(dt) ==> items[k] == Scalar(flat[k])
    {
      FlattenAt(dt, items, k);
    }
    GroupIs(dt, flat, items);
  }

  lemma GroupIs(dt: DType, flat: seq<int>, items: seq<Item>)
    requires |flat| == if IsComplex(dt) then 2 * |items| else |items|
    requires forall k :: 0 <= k < |flat| ==> ScalarFits(dt, flat[k])
    requires IsComplex(dt) ==> forall k :: 0 <= k < |items| ==> items[k] == Pair(flat[2 * k], flat[2 * k + 1])
    requires !IsComplex(dt) ==> forall k :: 0 <= k < |items| ==> items[k] == Scalar(flat[k])
    ensures Group(dt, flat, |items|) == items
  {
    var back := Group(dt, flat, |items|);
    assert forall k :: 0 <= k < |items| ==> back[k] == items[k];
  }

  lemma FlattenGroup(dt: DType, flat: seq<int>, count: nat)
    requires |flat| == if IsComplex(dt) then 2 * count else count
    requires forall k :: 0 <= k < |flat| ==> ScalarFits(dt, flat[k])
    ensures Flatten(dt, Group(dt, flat, count)) == flat
  {
    var items := Group(dt, flat, count);
    var again := Flatten(dt, items);
    forall k | 0 <= k < |flat|
      ensures again[k] == flat[k]
    {
      var i, j := if IsComplex(dt) then k / 2 else k, if IsComplex(dt) then k % 2 else 0;
      assert again[k] == Part(dt, items[i], j);
      GroupAt(dt, flat, count, i);
    }
  }

  lemma GroupAt(dt: DType, flat: seq<int>, count: nat, i: nat)
    requires |flat| == if IsComplex(dt) then 2 * count else count
    requires forall k :: 0 <= k < |flat| ==> ScalarFits(dt, flat[k])
    requires i < count
    ensures IsComplex(dt) ==> Group(dt, flat, count)[i] == Pair(flat[2 * i], flat[2 * i + 1])
    ensures !IsComplex(dt) ==> Group(dt, flat, count)[i] == Scalar(flat[i])
  {
  }

  datatype Failed = StructError

  /** How many scalars count items are made of. */
  function Scalars(dt: DType, count: nat): (n: nat)
    ensures n * ScalarSize(dt) == count * ItemSize(dt)
  {
    if IsComplex(dt) then
      MulAssoc(count, 2, ScalarSize(dt));
      2 * count
    else count
  }

  /** Reading back count items. struct.unpack insists on exactly the right number of bytes. */
  function Decode(raw: seq<Byte>, dt: DType, count: int): (r: Result<seq<Item>, Failed>)
    ensures r.Success? <==> count >= 0 && |raw| == count * ItemSize(dt)
    ensures r.Success? ==> |r.value| == count && AllFit(dt, r.value)
  {
    if count < 0 || |raw| != count * ItemSize(dt) then Failure(StructError)
    else Success(Group(dt, Unpack(dt, raw, Scalars(dt, count)), count))
  }

  /** A complex item is its real and then its imaginary part. */
  lemma DecodedPair(dt: DType, raw: seq<Byte>, count: nat, k: nat, at: int)
    requires |raw| == count * ItemSize(dt) && k < count && at == k * ItemSize(dt)
    requires dt == Complex64 || dt == Complex128
    ensures var s := ScalarSize(dt);
            && 0 <= at <= at + s + s <= |raw|
            && Decode(raw, dt, count).value[k]
               == Pair(UnpackScalar(dt, raw[at..at + s]), UnpackScalar(dt, raw[at + s..at + s + s]))
  {
    DecodedFlat(dt, raw, count, k);
    PairAt(dt, raw, count, k, ScalarSize(dt), at);
  }

  /** Any other item is one scalar. */
  lemma DecodedSingle(dt: DType, raw: seq<Byte>, count: nat, k: nat, at: int)
    requires |raw| == count * ItemSize(dt) && k < count && at == k * ItemSize(dt)
    requires dt != Complex64 && dt != Complex128
    ensures 0 <= at <= at + ItemSize(dt) <= |raw|
    ensures Decode(raw, dt, count).value[k] == Scalar(UnpackScalar(dt, raw[at..at + ItemSize(dt)]))
  {
    DecodedFlat(dt, raw, count, k);
    UnpackAt(dt, raw, count, k, ScalarSize(dt), at);
  }

  lemma PairBounds(k: nat, s: nat, at: int)
    requires at == k * (s * 2)
    ensures at == (2 * k) * s && at + s == (2 * k + 1) * s
  {
    PairSize(k, s);
    Distribute(2 * k, 1, s);
  }

  lemma DecodedFlat(dt: DType, raw: seq<Byte>, count: nat, k: nat)
    requires |raw| == count * ItemSize(dt) && k < count
    ensures |raw| == Scalars(dt, count) * ScalarSize(dt)
    ensures Scalars(dt, count) == if IsComplex(dt) then 2 * count else count
    ensures var flat := Unpack(dt, raw, Scalars(dt, count));
            Decode(raw, dt, count).value[k] ==
            if IsComplex(dt) then Pair(flat[2 * k], flat[2 * k + 1]) else Scalar(flat[k])
  {
    GroupAt(dt, Unpack(dt, raw, Scalars(dt, count)), count, k);
  }

  lemma PairAt(dt: DType, raw: seq<Byte>, count: nat, k: nat, s: nat, at: int)
    requires s == ScalarSize(dt) && |raw| == (2 * count) * s && k < count && at == k * (s * 2)
    ensures 0 <= at <= at + s + s <= |raw|
    ensures Unpack(dt, raw, 2 * count)[2 * k] == UnpackScalar(dt, raw[at..at + s])
    ensures Unpack(dt, raw, 2 * count)[2 * k + 1] == UnpackScalar(dt, raw[at + s..at + s + s])
  {
    PairBounds(k, s, at);
    UnpackAt(dt, raw, 2 * count, 2 * k, s, at);
    UnpackAt(dt, raw, 2 * count, 2 * k + 1, s, at + s);
  }

  /** What is written can be read back. */
  lemma DecodeEncoded(dt: DType, items: seq<Item>)
    requires AllFit(dt, items)
    ensures Decode(Encoded(dt, items), dt, |items|) == Success(items)
  {
    UnpackPack(dt, Flatten(dt, items));
    GroupFlatten(dt, items);
  }

  /** Writing back what was read restores the bytes, if and only if they were canonical. */
  lemma EncodeDecoded(dt: DType, raw: seq<Byte>, count: nat)
    requires |raw| == count * ItemSize(dt)
    ensures Encoded(dt, Decode(raw, dt, count).value) == raw <==> Canonical(dt, raw)
  {
    var n := Scalars(dt, count);
    FlattenGroup(dt, Unpack(dt, raw, n), count);
    PackUnpack(dt, raw, n);
  }

  /** _encode: complex items are laid out as real part, imaginary part; then everything is packed at once. */
  method Encode(values: seq<Item>, dt: DType) returns (raw: seq<Byte>)
    requires AllFit(dt, values)
    ensures raw == Encoded(dt, values)
    ensures Decode(raw, dt, |values|) == Success(values)
  {
    DecodeEncoded(dt, values);
    if IsComplex(dt) {
      var flat: seq<int> := [];
      ghost var all := Flatten(dt, values);
      for k := 0 to |values|
        invariant flat == all[..2 * k]
      {
        FlattenPrefix(dt, values, k);
        flat := flat + [values[k].re];
        flat := flat + [values[k].im];
      }
      assert flat == all;
      raw := Pack(dt, flat);
    } else {
      raw := Pack(dt, Flatten(dt, values));
    }
  }
}
