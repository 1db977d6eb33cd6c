/** The mesh attribute storage (crates/albedo_backend/src/mesh/primitive.rs):
    a `Primitive` holds its vertex attributes either interleaved in one byte
    buffer or as one byte buffer per attribute (structure of arrays), and
    hands out `AttributeSlice`s, strided views of one attribute over a byte
    buffer. Element types are opaque byte widths: `elemSize` stands for
    `size_of::<T>()` of the slice's element type, `vSize` for
    `size_of::<V>()` of the data written by `set`. */
module MeshPrimitive {
  import opened Wrappers
  import opened Ints
  import opened VertexFormats

  datatype AttributeId = AttributeId(name: string)

  const POSITION: AttributeId := AttributeId("POSITION")
  const NORMAL: AttributeId := AttributeId("NORMAL")
  const TEX_COORDS_0: AttributeId := AttributeId("TEX_COORDS_0")

  datatype AttributeDescriptor = AttributeDescriptor(id: AttributeId, format: VertexFormat)

  /** The attribute bytes: one interleaved buffer, or one buffer per attribute. */
  datatype AttributeData = Interleaved(buffer: array<u8>) | SoA(buffers: seq<array<u8>>)

  function FormatsOf(descriptors: seq<AttributeDescriptor>): seq<VertexFormat>
  {
    seq(|descriptors|, k requires 0 <= k < |descriptors| => descriptors[k].format)
  }

  function IdsOf(descriptors: seq<AttributeDescriptor>): seq<AttributeId>
  {
    seq(|descriptors|, k requires 0 <= k < |descriptors| => descriptors[k].id)
  }

  /** The position of the first occurrence of `x` in `s`, if any. */
  function FirstIndexOf<T(==)>(s: seq<T>, x: T): (r: Option<nat>)
    ensures r.Some? ==> r.value < |s| && s[r.value] == x && forall j :: 0 <= j < r.value ==> s[j] != x
    ensures r.None? ==> x !in s
  {
    if s == [] then None
    else if s[0] == x then Some(0)
    else match FirstIndexOf(s[1..], x)
      case None => None
      case Some(k) => Some(k + 1)
  }

  /** `bytes` with `v` written over the bytes from `at` on. */
  function Splice(bytes: seq<u8>, at: nat, v: seq<u8>): (r: seq<u8>)
    requires at + |v| <= |bytes|
    ensures |r| == |bytes|
    ensures forall p :: 0 <= p < |bytes| ==> r[p] == if at <= p < at + |v| then v[p - at] else bytes[p]
  {
    seq(|bytes|, p requires 0 <= p < |bytes| => if at <= p < at + |v| then v[p - at] else bytes[p])
  }

  /** Every element `k` of `values`, written at `offset + stride * k`, lies
      within a buffer of `size` bytes. */
  predicate WindowsFit(size: nat, offset: nat, stride: nat, values: seq<seq<u8>>)
    decreases |values|
  {
    values == [] || (offset + |values[0]| <= size && WindowsFit(size, offset + stride, stride, values[1..]))
  }

  /** The buffer after each element of `values`, in order, has been written
      one stride after the previous one, the first at `offset`. */
  function StridedWrite(bytes: seq<u8>, offset: nat, stride: nat, values: seq<seq<u8>>): (r: seq<u8>)
    requires WindowsFit(|bytes|, offset, stride, values)
    ensures |r| == |bytes|
    decreases |values|
  {
    if values == [] then bytes
    else StridedWrite(Splice(bytes, offset, values[0]), offset + stride, stride, values[1..])
  }

  predicate NarrowerThan(values: seq<seq<u8>>, width: nat)
  {
    forall i :: 0 <= i < |values| ==> |values[i]| <= width
  }

  lemma {:induction false} MulMonotone(a: nat, b: nat, c: nat)
    requires b <= c
    ensures a * b <= a * c
    decreases c - b
  {
    if b < c {
      MulMonotone(a, b, c - 1);
      MulSucc(a, c - 1);
    }
  }

  lemma MulSucc(a: nat, b: nat)
    ensures a * b >= 0
    ensures a * (b + 1) == a * b + a
  {
  }

  /** Euclidean division: `x` lies in the block that `x / d` counts up to. */
  lemma DivFloor(x: nat, d: nat)
    requires d > 0
    ensures d * (x / d) <= x < d * (x / d) + d
    ensures x % d == 0 ==> d * (x / d) == x
  {
    assert x == d * (x / d) + x % d;
  }

  lemma DivExact(x: nat, d: nat)
    requires d > 0 && x % d == 0
    ensures (x / d) * d == x
  {
    DivFloor(x, d);
  }

  /** A buffer of `q` blocks of `d` bytes holds exactly `q` whole blocks. */
  lemma WholeBlocks(q: nat, d: nat)
    requires d > 0
    ensures (q * d) / d == q && (q * d) % d == 0
  {
    MulSucc(d, q);
    DivUnique(q * d, d, q);
    DivFloor(q * d, d);
  }

  /** `x / d` is the number of whole `d`-sized blocks in `x`. */
  lemma DivUnique(x: nat, d: nat, q: nat)
    requires d > 0 && d * q <= x < d * q + d
    ensures x / d == q
  {
    var q' := x / d;
    DivFloor(x, d);
    if q' > q {
      MulSucc(d, q);
      MulMonotone(d, q + 1, q');
    } else if q' < q {
      MulSucc(d, q');
      MulMonotone(d, q' + 1, q);
    }
  }

  /** Writing a non-empty run is writing its first element, then the rest
      one stride further on. */
  lemma StridedWriteStep(bytes: seq<u8>, offset: nat, stride: nat, values: seq<seq<u8>>)
    requires WindowsFit(|bytes|, offset, stride, values) && values != []
    ensures offset + |values[0]| <= |bytes|
    ensures WindowsFit(|bytes|, offset + stride, stride, values[1..])
    ensures StridedWrite(bytes, offset, stride, values)
         == StridedWrite(Splice(bytes, offset, values[0]), offset + stride, stride, values[1..])
  {
  }

  lemma SpliceInside(bytes: seq<u8>, at: nat, v: seq<u8>, j: nat)
    requires at + |v| <= |bytes| && j < |v|
    ensures Splice(bytes, at, v)[at + j] == v[j]
  {
  }

  lemma SpliceOutside(bytes: seq<u8>, at: nat, v: seq<u8>, p: nat)
    requires at + |v| <= |bytes| && p < |bytes| && (p < at || at + |v| <= p)
    ensures Splice(bytes, at, v)[p] == bytes[p]
  {
  }

  /** Bytes before the first window keep their value. */
  lemma {:induction false} StridedWriteKeepsBelow(bytes: seq<u8>, offset: nat, stride: nat, values: seq<seq<u8>>, p: nat)
    requires WindowsFit(|bytes|, offset, stride, values)
    requires p < offset && p < |bytes|
    ensures StridedWrite(bytes, offset, stride, values)[p] == bytes[p]
    decreases |values|
  {
    if values != [] {
      SpliceOutside(bytes, offset, values[0], p);
      StridedWriteKeepsBelow(Splice(bytes, offset, values[0]), offset + stride, stride, values[1..], p);
    }
  }

  /** The start of window `k`, one stride after window `k - 1`. */
  function Pos(offset: nat, stride: nat, k: nat): (p: nat)
    ensures p >= offset
    decreases k
  {
    if k == 0 then offset else Pos(offset + stride, stride, k - 1)
  }

  /** Window `k` starts `k` strides after the first. */
  lemma {:induction false} PosIsProduct(offset: nat, stride: nat, k: nat)
    ensures Pos(offset, stride, k) == offset + stride * k
    decreases k
  {
    if k > 0 {
      PosIsProduct(offset + stride, stride, k - 1);
      MulSucc(stride, k - 1);
    }
  }

  /** Bytes from the stride after the last window on keep their value. */
  lemma {:induction false} StridedWriteKeepsAbove(bytes: seq<u8>, offset: nat, stride: nat, values: seq<seq<u8>>, p: nat)
    requires WindowsFit(|bytes|, offset, stride, values) && NarrowerThan(values, stride)
    requires Pos(offset, stride, |values|) <= p < |bytes|
    ensures StridedWrite(bytes, offset, stride, values)[p] == bytes[p]
    decreases |values|
  {
    if values != [] {
      StridedWriteStep(bytes, offset, stride, values);
      assert |values[0]| <= stride;
      SpliceOutside(bytes, offset, values[0], p);
      StridedWriteKeepsAbove(Splice(bytes, offset, values[0]), offset + stride, stride, values[1..], p);
    }
  }

  /** Element `k` reads back from its window. */
  lemma {:induction false} StridedWriteWrites(bytes: seq<u8>, offset: nat, stride: nat, values: seq<seq<u8>>, k: nat, j: nat)
    requires WindowsFit(|bytes|, offset, stride, values) && NarrowerThan(values, stride)
    requires k < |values| && j < |values[k]|
    ensures Pos(offset, stride, k) + j < |bytes|
    ensures StridedWrite(bytes, offset, stride, values)[Pos(offset, stride, k) + j] == values[k][j]
    decreases |values|
  {
    StridedWriteStep(bytes, offset, stride, values);
    var first := Splice(bytes, offset, values[0]);
    if k == 0 {
      SpliceInside(bytes, offset, values[0], j);
      StridedWriteKeepsBelow(first, offset + stride, stride, values[1..], offset + j);
    } else {
      assert values[1..][k - 1] == values[k];
      StridedWriteWrites(first, offset + stride, stride, values[1..], k - 1, j);
    }
  }

  /** The bytes of element `k`'s stride past its window keep their value. */
  lemma {:induction false} StridedWriteKeepsGap(bytes: seq<u8>, offset: nat, stride: nat, values: seq<seq<u8>>, k: nat, j: nat)
    requires WindowsFit(|bytes|, offset, stride, values) && NarrowerThan(values, stride)
    requires k < |values| && |values[k]| <= j < stride && Pos(offset, stride, k) + j < |bytes|
    ensures StridedWrite(bytes, offset, stride, values)[Pos(offset, stride, k) + j] == bytes[Pos(offset, stride, k) + j]
    decreases |values|
  {
    StridedWriteStep(bytes, offset, stride, values);
    var first := Splice(bytes, offset, values[0]);
    var result := StridedWrite(first, offset + stride, stride, values[1..]);
    if k == 0 {
      SpliceOutside(bytes, offset, values[0], offset + j);
      StridedWriteKeepsBelow(first, offset + stride, stride, values[1..], offset + j);
      assert result[offset + j] == bytes[offset + j];
    } else {
      var p := Pos(offset, stride, k) + j;
      assert p == Pos(offset + stride, stride, k - 1) + j;
      assert values[1..][k - 1] == values[k];
      assert |values[0]| <= stride;
      SpliceOutside(bytes, offset, values[0], p);
      StridedWriteKeepsGap(first, offset + stride, stride, values[1..], k - 1, j);
      assert result[p] == first[p];
    }
  }

  /** A strided, typed view of one attribute over a byte buffer. Element
      `i` occupies the `elemSize` bytes from `byteOffset + stride * i`. */
  class AttributeSlice {
    const data: array<u8>
    const byteOffset: nat
    const byteEnd: nat
    const stride: nat
    const elemSize: nat

    constructor (data: array<u8>, byteOffset: nat, byteEnd: nat, stride: nat, elemSize: nat)
      ensures this.data == data && this.byteOffset == byteOffset && this.byteEnd == byteEnd
      ensures this.stride == stride && this.elemSize == elemSize
    {
      this.data := data;
      this.byteOffset := byteOffset;
      this.byteEnd := byteEnd;
      this.stride := stride;
      this.elemSize := elemSize;
    }

    /** What every slice the primitive hands out satisfies: a non-zero
        stride, an element that fits in its stride after the offset, and a
        buffer of whole strides that ends at `byteEnd`. */
    predicate Valid()
    {
      && stride > 0
      && byteOffset + elemSize <= stride
      && byteOffset < stride
      && byteEnd == data.Length
      && data.Length % stride == 0
    }

    /** The first byte of element `i` (`start_byte`, `dst_start`). */
    function Start(i: nat): nat
    {
      byteOffset + stride * i
    }

    /** `len`: the number of whole strides in the buffer. */
    function Len(): (n: nat)
      requires Valid()
      ensures stride * n == data.Length
    {
      DivExact(data.Length, stride);
      data.Length / stride
    }

    lemma WithinLen(i: nat)
      requires Valid()
      ensures i < Len() ==> Start(i) + elemSize <= data.Length && Start(i) < data.Length
      ensures i >= Len() ==> Start(i) >= data.Length
    {
      if i < Len() {
        MulSucc(stride, i);
        MulMonotone(stride, i + 1, Len());
      } else {
        MulMonotone(stride, Len(), i);
      }
    }

    /** The bytes of element `i`. */
    function Element(i: nat): (e: seq<u8>)
      requires Valid() && i < Len()
      reads data
      ensures |e| == elemSize
    {
      WithinLen(i);
      data[Start(i)..Start(i) + elemSize]
    }

    /** `index`: panics when element `i` starts at or past `byteEnd` (and
        when its bytes run past the buffer); otherwise yields its bytes. */
    function Index(i: nat): (r: Result<seq<u8>>)
      reads data
      ensures r.Ok? ==> |r.value| == elemSize && Start(i) < byteEnd
      ensures r.Panicked? ==> r.reason == IndexOutOfBounds
    {
      if Start(i) >= byteEnd then Panicked(IndexOutOfBounds)
      else if Start(i) + elemSize > data.Length then Panicked(IndexOutOfBounds)
      else Ok(data[Start(i)..Start(i) + elemSize])
    }

    /** `start_byte` as a release build computes it: the `usize` product
        and sum wrap modulo 2^64. */
    function WrappedStart(i: nat): (p: nat)
      ensures p < USIZE_MODULUS
      ensures Start(i) < USIZE_MODULUS ==> p == Start(i)
    {
      Start(i) % USIZE_MODULUS
    }

    /** `index` as a release build runs it: the bounds check and the slice
        range use the wrapped start byte. */
    function IndexAsWritten(i: nat): (r: Result<seq<u8>>)
      reads data
      ensures r.Ok? ==> |r.value| == elemSize && WrappedStart(i) < byteEnd
      ensures r.Panicked? ==> r.reason == IndexOutOfBounds
    {
      var start := WrappedStart(i);
      if start >= byteEnd then Panicked(IndexOutOfBounds)
      else if start + elemSize > data.Length then Panicked(IndexOutOfBounds)
      else Ok(data[start..start + elemSize])
    }

    /** Below the wrap, the release build and the unbounded model agree. */
    lemma IndexAsWrittenBelowWrap(i: nat)
      requires Start(i) < USIZE_MODULUS
      ensures IndexAsWritten(i) == Index(i)
    {
    }

    /** On a valid slice, indexing panics exactly past `len()`, and yields
        element `i` otherwise. */
    lemma IndexWithinLen(i: nat)
      requires Valid()
      ensures Index(i).Ok? <==> i < Len()
      ensures i < Len() ==> Index(i) == Ok(Element(i))
    {
      WithinLen(i);
    }

    /** Copies `value` over the bytes from `start` on (`copy_from_slice`). */
    method CopyInto(start: nat, value: seq<u8>)
      requires start + |value| <= data.Length
      modifies data
      ensures data[..] == Splice(old(data[..]), start, value)
    {
      forall j | 0 <= j < |value| {
        data[start + j] := value[j];
      }
      assert data[..] == Splice(old(data[..]), start, value);
    }

    /** Elements `i..` of `values`, of `vSize <= elemSize` bytes and no
        more than `len()` of them, fit in the buffer at their strided
        positions. */
    lemma {:induction false} FitsFrom(vSize: nat, values: seq<seq<u8>>, i: nat)
      requires Valid() && vSize <= elemSize && |values| <= Len() && i <= |values|
      requires forall k :: 0 <= k < |values| ==> |values[k]| == vSize
      ensures WindowsFit(data.Length, Start(i), stride, values[i..])
      decreases |values| - i
    {
      if i < |values| {
        WithinLen(i);
        FitsFrom(vSize, values, i + 1);
        MulSucc(stride, i);
        assert values[i..][1..] == values[i + 1..];
      }
    }

    /** `index_mut` followed by a write of `value` through the reference. */
    method IndexMut(i: nat, value: seq<u8>) returns (r: Outcome)
      requires |value| == elemSize
      modifies data
      ensures r.Aborted? <==> old(Index(i)).Panicked?
      ensures r.Aborted? ==> r.reason == IndexOutOfBounds && data[..] == old(data[..])
      ensures r.Completed? ==> data[..] == Splice(old(data[..]), Start(i), value)
      ensures r.Completed? ==> Index(i) == Ok(value)
      ensures forall p :: 0 <= p < data.Length && !(Start(i) <= p < Start(i) + elemSize) ==> data[p] == old(data[p])
    {
      var start := Start(i);
      if start >= byteEnd || start + elemSize > data.Length {
        return Aborted(IndexOutOfBounds);
      }
      CopyInto(start, value);
      assert data[start..start + elemSize] == value;
      r := Completed;
    }

    /** `set`: copies element `k` of `values` (each `vSize` bytes) to the
        start of slice element `k`. Panics when the written elements are
        wider than the slice's, or more than the slice holds. */
    method Set(vSize: nat, values: seq<seq<u8>>) returns (r: Outcome)
      requires Valid()
      requires forall k :: 0 <= k < |values| ==> |values[k]| == vSize
      modifies data
      ensures r.Aborted? <==> vSize > elemSize || |values| > Len()
      ensures r.Aborted? ==> r.reason == (if vSize > elemSize then ElementTooWide else SliceTooLarge)
      ensures r.Aborted? ==> data[..] == old(data[..])
      ensures r.Completed? ==> WindowsFit(data.Length, byteOffset, stride, values)
      ensures r.Completed? ==> data[..] == StridedWrite(old(data[..]), byteOffset, stride, values)
    {
      if vSize > elemSize {
        return Aborted(ElementTooWide);
      }
      var count := |values|;
      if count > Len() {
        return Aborted(SliceTooLarge);
      }
      FitsFrom(vSize, values, 0);
      assert values[0..] == values;
      CopyElements(values);
      r := Completed;
    }

    /** The copy loop of `set`: element `i` of `values` to `Start(i)`. */
    method CopyElements(values: seq<seq<u8>>)
      requires WindowsFit(data.Length, byteOffset, stride, values)
      modifies data
      ensures data[..] == StridedWrite(old(data[..]), byteOffset, stride, values)
    {
      assert values[0..] == values;
      for i := 0 to |values|
        invariant WindowsFit(data.Length, Start(i), stride, values[i..])
        invariant StridedWrite(data[..], Start(i), stride, values[i..]) == StridedWrite(old(data[..]), byteOffset, stride, values)
      {
        var dstStart := byteOffset + stride * i;
        ghost var before := data[..];
        StridedWriteStep(before, dstStart, stride, values[i..]);
        CopyInto(dstStart, values[i]);
        assert values[i..][1..] == values[i + 1..];
        MulSucc(stride, i);
      }
    }

    method Iter() returns (it: AttributeSliceIter)
      ensures fresh(it) && it.slice == this && it.index == 0
    {
      it := new AttributeSliceIter(this);
    }
  }

  /** A 32-byte buffer of two 16-byte elements: index 2^60 is far past
      `len()`, and `Index` panics, but `16 * 2^60` wraps to 0 in `usize`, so
      the release build's `index` passes its bounds check and yields
      element 0. */
  lemma IndexWrapsToFirstElement(s: AttributeSlice)
    requires s.Valid() && s.byteOffset == 0 && s.stride == 16 && s.elemSize == 16 && s.data.Length == 32
    ensures s.Len() == 2
    ensures s.Index(0x1000_0000_0000_0000).Panicked?
    ensures s.Index(0).Ok? && s.IndexAsWritten(0x1000_0000_0000_0000) == s.Index(0)
  {
    assert s.Start(0x1000_0000_0000_0000) == USIZE_MODULUS;
    s.IndexWithinLen(0);
  }

  /** After a completed `set`, element `k` of the slice begins with the
      bytes of `values[k]`. */
  lemma SetWrites(s: AttributeSlice, before: seq<u8>, values: seq<seq<u8>>, k: nat, j: nat)
    requires s.Valid() && WindowsFit(|before|, s.byteOffset, s.stride, values)
    requires NarrowerThan(values, s.elemSize)
    requires k < |values| && j < |values[k]|
    ensures s.Start(k) + j < |before|
    ensures StridedWrite(before, s.byteOffset, s.stride, values)[s.Start(k) + j] == values[k][j]
  {
    StridedWriteWrites(before, s.byteOffset, s.stride, values, k, j);
    PosIsProduct(s.byteOffset, s.stride, k);
  }

  /** After a completed `set`, the rest of each written element's stride,
      the tail of a wider element and the other attributes' bytes, keeps
      its value. */
  lemma SetKeepsRestOfStride(s: AttributeSlice, before: seq<u8>, values: seq<seq<u8>>, k: nat, j: nat)
    requires s.Valid() && WindowsFit(|before|, s.byteOffset, s.stride, values)
    requires NarrowerThan(values, s.elemSize)
    requires k < |values| && |values[k]| <= j < s.stride && s.Start(k) + j < |before|
    ensures StridedWrite(before, s.byteOffset, s.stride, values)[s.Start(k) + j] == before[s.Start(k) + j]
  {
    PosIsProduct(s.byteOffset, s.stride, k);
    StridedWriteKeepsGap(before, s.byteOffset, s.stride, values, k, j);
  }

  /** After a completed `set`, the bytes before the first element and from
      the element after the last written one on keep their value. */
  lemma SetKeepsOutside(s: AttributeSlice, before: seq<u8>, values: seq<seq<u8>>, p: nat)
    requires s.Valid() && WindowsFit(|before|, s.byteOffset, s.stride, values)
    requires NarrowerThan(values, s.elemSize)
    requires p < |before| && (p < s.byteOffset || s.Start(|values|) <= p)
    ensures StridedWrite(before, s.byteOffset, s.stride, values)[p] == before[p]
  {
    if p < s.byteOffset {
      StridedWriteKeepsBelow(before, s.byteOffset, s.stride, values, p);
    } else {
      PosIsProduct(s.byteOffset, s.stride, |values|);
      StridedWriteKeepsAbove(before, s.byteOffset, s.stride, values, p);
    }
  }

  /** The iterator over a slice's elements. */
  class AttributeSliceIter {
    const slice: AttributeSlice
    var index: nat

    constructor (slice: AttributeSlice)
      ensures this.slice == slice && index == 0
    {
      this.slice := slice;
      index := 0;
    }

    /** The elements still to be yielded, in order. */
    ghost function Remaining(): (rest: seq<seq<u8>>)
      requires slice.Valid()
      reads this, slice.data
      ensures |rest| == if index < slice.Len() then slice.Len() - index else 0
    {
      var i, n := index, slice.Len();
      if i >= n then []
      else seq(n - i, k requires 0 <= k < n - i reads slice.data => slice.Element(i + k))
    }

    /** `next`: the element at `index`, advancing past it, or `None` once
        `len()` elements have been yielded. */
    method Next() returns (r: Option<seq<u8>>)
      requires slice.Valid()
      modifies this`index
      ensures r.None? <==> old(index) >= slice.Len()
      ensures r.None? ==> index == old(index)
      ensures r.Some? ==> index == old(index) + 1 && r.value == slice.Element(old(index))
      ensures old(Remaining()) == if r.None? then [] else [r.value] + Remaining()
    {
      if index >= slice.Len() {
        return None;
      }
      ghost var before := Remaining();
      var i := index;
      index := index + 1;
      slice.IndexWithinLen(i);
      r := Some(slice.Index(i).value);
      assert before == [r.value] + Remaining() by {
        assert |before| == |[r.value] + Remaining()|;
        forall k | 0 <= k < |before| ensures before[k] == ([r.value] + Remaining())[k] {
          if k > 0 {
            assert Remaining()[k - 1] == slice.Element(i + k);
          }
        }
      }
    }
  }

  /** A mesh primitive: its attributes' formats and ids, in declaration
      order, and their bytes. */
  class Primitive {
    const data: AttributeData
    const formats: seq<VertexFormat>
    const ids: seq<AttributeId>

    /** One id per format; an interleaved buffer of whole vertices; one
        buffer of whole elements per attribute in the SoA layout. */
    predicate Valid()
    {
      && |ids| == |formats|
      && match data
         case Interleaved(buffer) =>
           if formats == [] then buffer.Length == 0 else buffer.Length % SizeSum(formats) == 0
         case SoA(buffers) =>
           |buffers| == |formats| && forall k :: 0 <= k < |buffers| ==> buffers[k].Length % Size(formats[k]) == 0
    }

    /** `interleaved_with_count`: `count` zeroed vertices of all attributes. */
    constructor InterleavedWithCount(count: nat, descriptors: seq<AttributeDescriptor>)
      ensures Valid()
      ensures formats == FormatsOf(descriptors) && ids == IdsOf(descriptors)
      ensures data.Interleaved? && fresh(data.buffer)
      ensures data.buffer.Length == count * SizeSum(formats)
      ensures forall p :: 0 <= p < data.buffer.Length ==> data.buffer[p] == 0
      ensures Count() == if descriptors == [] then Panicked(DivisionByZero) else Ok(count)
    {
      var fs := FormatsOf(descriptors);
      ids := IdsOf(descriptors);
      formats := fs;
      var stride := ComputeStride(fs);
      var buffer := new u8[count * stride](_ => 0);
      data := Interleaved(buffer);
      new;
      if descriptors != [] {
        WholeBlocks(count, stride);
      }
    }

    /** `soa_with_count`: one buffer per attribute, reserved but empty. */
    constructor SoaWithCount(count: nat, descriptors: seq<AttributeDescriptor>)
      ensures Valid()
      ensures formats == FormatsOf(descriptors) && ids == IdsOf(descriptors)
      ensures data.SoA? && |data.buffers| == |descriptors|
      ensures forall k :: 0 <= k < |data.buffers| ==> fresh(data.buffers[k]) && data.buffers[k].Length == 0
      ensures Count() == if descriptors == [] then Panicked(IndexOutOfBounds) else Ok(0)
    {
      var fs := FormatsOf(descriptors);
      var buffers: seq<array<u8>> := [];
      for k := 0 to |fs|
        invariant |buffers| == k
        invariant forall j :: 0 <= j < k ==> fresh(buffers[j]) && buffers[j].Length == 0
      {
        var buffer := new u8[0];
        buffers := buffers + [buffer];
      }
      ids := IdsOf(descriptors);
      formats := fs;
      data := SoA(buffers);
    }

    /** `count`: the number of vertices, read off the interleaved buffer or
        the first attribute's buffer. With no attribute the interleaved
        stride is zero and the division panics, and the SoA layout has no
        first buffer. */
    function Count(): (r: Result<nat>)
      ensures r.Ok? <==> formats != [] && (data.SoA? ==> data.buffers != [])
      ensures r.Panicked? ==> r.reason == if data.Interleaved? then DivisionByZero else IndexOutOfBounds
    {
      match data
      case Interleaved(buffer) =>
        if formats == [] then Panicked(DivisionByZero) else Ok(buffer.Length / SizeSum(formats))
      case SoA(buffers) =>
        if buffers == [] || formats == [] then Panicked(IndexOutOfBounds)
        else Ok(buffers[0].Length / Size(formats[0]))
    }

    /** On a valid primitive, `count` is the exact number of whole vertices
        in the interleaved buffer, or of whole elements in the first SoA
        buffer, and it succeeds exactly when there is an attribute. */
    lemma CountIsWholeVertices()
      requires Valid()
      ensures Count().Ok? <==> formats != []
      ensures Count().Ok? && data.Interleaved? ==> Count().value * SizeSum(formats) == data.buffer.Length
      ensures Count().Ok? && data.SoA? ==> Count().value * Size(formats[0]) == data.buffers[0].Length
    {
      if formats != [] {
        match data
        case Interleaved(buffer) => DivExact(buffer.Length, SizeSum(formats));
        case SoA(buffers) => DivExact(buffers[0].Length, Size(formats[0]));
      }
    }

    /** `s` is the view `attribute` hands out over attribute `attribute`
        for elements of `elemSize` bytes: the interleaved buffer at the
        vertex stride and the attribute's offset, or the attribute's own
        buffer at its format size from offset 0, up to the buffer's end. */
    predicate SliceOf(attribute: nat, elemSize: nat, s: AttributeSlice)
    {
      && attribute < |formats|
      && s.Valid() && s.elemSize == elemSize && s.byteEnd == s.data.Length
      && match data
         case Interleaved(buffer) =>
           s.data == buffer && s.stride == SizeSum(formats) && s.byteOffset == SizeSum(formats[..attribute])
         case SoA(buffers) =>
           attribute < |buffers| && s.data == buffers[attribute] && s.stride == Size(formats[attribute]) && s.byteOffset == 0
    }

    /** `attribute`: the slice over attribute `attribute` for elements of
        `elemSize` bytes. Panics when there is no such attribute or its
        format is narrower than the element. */
    method Attribute(attribute: nat, elemSize: nat) returns (r: Result<AttributeSlice>)
      requires Valid()
      ensures r.Panicked? <==> attribute >= |formats| || elemSize > Size(formats[attribute])
      ensures r.Panicked? ==> r.reason == if attribute >= |formats| then IndexOutOfBounds else ElementTooWide
      ensures r.Ok? ==> SliceOf(attribute, elemSize, r.value)
    {
      if attribute >= |formats| {
        return Panicked(IndexOutOfBounds);
      }
      var byteSize := Size(formats[attribute]);
      if elemSize > byteSize {
        return Panicked(ElementTooWide);
      }
      match data
      case Interleaved(buffer) =>
        var stride := ComputeStride(formats);
        var offset := ByteOffsetFor(formats, attribute);
        AttributeFitsInStride(formats, attribute);
        var slice := new AttributeSlice(buffer, offset.value, buffer.Length, stride, elemSize);
        r := Ok(slice);
      case SoA(buffers) =>
        var buffer := buffers[attribute];
        var slice := new AttributeSlice(buffer, 0, buffer.Length, byteSize, elemSize);
        r := Ok(slice);
    }

    /** The float accessors (`attribute_f32` … `attribute_f64x4`): panic
        unless the attribute's format is a float format. */
    method AttributeFloat(index: nat, elemSize: nat) returns (r: Result<AttributeSlice>)
      requires Valid()
      ensures r.Panicked? <==>
        index >= |formats| || !IsFloat(formats[index]) || elemSize > Size(formats[index])
      ensures r.Panicked? && index >= |formats| ==> r.reason == IndexOutOfBounds
      ensures r.Panicked? && index < |formats| && !IsFloat(formats[index]) ==> r.reason == FormatMismatch
      ensures r.Panicked? && index < |formats| && IsFloat(formats[index]) ==> r.reason == ElementTooWide
      ensures r.Ok? ==> SliceOf(index, elemSize, r.value)
    {
      if index >= |formats| {
        return Panicked(IndexOutOfBounds);
      }
      if !IsFloat(formats[index]) {
        return Panicked(FormatMismatch);
      }
      r := Attribute(index, elemSize);
    }

    /** The unsigned accessors (`attribute_u32` … `attribute_u32x4`): panic
        unless the attribute's format is an unsigned format. */
    method AttributeUnsigned(index: nat, elemSize: nat) returns (r: Result<AttributeSlice>)
      requires Valid()
      ensures r.Panicked? <==>
        index >= |formats| || !IsUnsigned(formats[index]) || elemSize > Size(formats[index])
      ensures r.Panicked? && index >= |formats| ==> r.reason == IndexOutOfBounds
      ensures r.Panicked? && index < |formats| && !IsUnsigned(formats[index]) ==> r.reason == FormatMismatch
      ensures r.Panicked? && index < |formats| && IsUnsigned(formats[index]) ==> r.reason == ElementTooWide
      ensures r.Ok? ==> SliceOf(index, elemSize, r.value)
    {
      if index >= |formats| {
        return Panicked(IndexOutOfBounds);
      }
      if !IsUnsigned(formats[index]) {
        return Panicked(FormatMismatch);
      }
      r := Attribute(index, elemSize);
    }

    /** `attribute_index`: the position of the first attribute with this id. */
    function AttributeIndex(id: AttributeId): (r: Option<nat>)
      ensures r.Some? ==> r.value < |ids| && ids[r.value] == id && forall j :: 0 <= j < r.value ==> ids[j] != id
      ensures r.None? <==> id !in ids
    {
      FirstIndexOf(ids, id)
    }
  }
}
