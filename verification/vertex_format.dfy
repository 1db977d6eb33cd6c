/** Vertex formats and the byte-layout arithmetic of the mesh attribute
    storage (crates/albedo_backend/src/mesh/primitive.rs): the size of each
    format, the two format kinds the typed accessors accept, the stride of an
    interleaved vertex and the byte offset of one attribute inside it. */
module VertexFormats {
  import opened Wrappers

  /** The vertex formats of the graphics API, one per component type and
      component count. */
  datatype VertexFormat =
    | Uint8x2 | Uint8x4 | Sint8x2 | Sint8x4 | Unorm8x2 | Unorm8x4 | Snorm8x2 | Snorm8x4
    | Uint16x2 | Uint16x4 | Sint16x2 | Sint16x4 | Unorm16x2 | Unorm16x4 | Snorm16x2 | Snorm16x4
    | Float16x2 | Float16x4
    | Float32 | Float32x2 | Float32x3 | Float32x4
    | Uint32 | Uint32x2 | Uint32x3 | Uint32x4
    | Sint32 | Sint32x2 | Sint32x3 | Sint32x4
    | Float64 | Float64x2 | Float64x3 | Float64x4

  /** Bytes one element of the format occupies. */
  function Size(f: VertexFormat): (n: nat)
    ensures n > 0
  {
    match f
    case Uint8x2 | Sint8x2 | Unorm8x2 | Snorm8x2 => 2
    case Uint8x4 | Sint8x4 | Unorm8x4 | Snorm8x4 => 4
    case Uint16x2 | Sint16x2 | Unorm16x2 | Snorm16x2 | Float16x2 => 4
    case Uint16x4 | Sint16x4 | Unorm16x4 | Snorm16x4 | Float16x4 => 8
    case Float32 | Uint32 | Sint32 => 4
    case Float32x2 | Uint32x2 | Sint32x2 | Float64 => 8
    case Float32x3 | Uint32x3 | Sint32x3 => 12
    case Float32x4 | Uint32x4 | Sint32x4 | Float64x2 => 16
    case Float64x3 => 24
    case Float64x4 => 32
  }

  /** `is_vertex_format_float`: the formats the float accessors accept. */
  predicate IsFloat(f: VertexFormat)
  {
    match f
    case Float32 | Float64 | Float16x2 | Float16x4 | Float32x2 | Float32x3 | Float32x4
      | Float64x2 | Float64x3 | Float64x4 => true
    case _ => false
  }

  /** `is_vertex_format_unsigned`: the formats the unsigned accessors accept.
      The normalised 8- and 16-bit formats are in the set; `Uint8x2`'s signed
      and `Snorm` counterparts are not. */
  predicate IsUnsigned(f: VertexFormat)
  {
    match f
    case Uint8x2 | Uint8x4 | Uint16x2 | Uint16x4 | Uint32 | Uint32x2 | Uint32x3 | Uint32x4
      | Unorm8x2 | Unorm8x4 | Unorm16x2 | Unorm16x4 => true
    case _ => false
  }

  /** No format is accepted by both typed accessor families, and the signed
      formats by neither. */
  lemma KindsDisjoint(f: VertexFormat)
    ensures !(IsFloat(f) && IsUnsigned(f))
    ensures (|| f.Sint8x2? || f.Sint8x4? || f.Snorm8x2? || f.Snorm8x4?
             || f.Sint16x2? || f.Sint16x4? || f.Snorm16x2? || f.Snorm16x4?
             || f.Sint32? || f.Sint32x2? || f.Sint32x3? || f.Sint32x4?) ==> !IsFloat(f) && !IsUnsigned(f)
  {
  }

  /** The combined size of a run of formats. */
  function SizeSum(formats: seq<VertexFormat>): (total: nat)
    ensures total >= |formats|
    ensures formats != [] ==> total >= Size(formats[|formats| - 1])
  {
    if formats == [] then 0 else SizeSum(formats[..|formats| - 1]) + Size(formats[|formats| - 1])
  }

  /** `compute_stride`: the byte size of one interleaved vertex. */
  method ComputeStride(formats: seq<VertexFormat>) returns (stride: nat)
    ensures stride == SizeSum(formats)
    ensures formats != [] ==> stride > 0
  {
    stride := 0;
    for i := 0 to |formats|
      invariant stride == SizeSum(formats[..i])
    {
      assert formats[..i + 1][..i] == formats[..i];
      stride := stride + Size(formats[i]);
    }
    assert formats[..|formats|] == formats;
  }

  /** `byte_offset_for`: the byte offset of attribute `element` inside an
      interleaved vertex, the sizes of the attributes before it. Reading
      `formats[i]` for `i` up to `element` panics when `element` is past the
      end. */
  method ByteOffsetFor(formats: seq<VertexFormat>, element: nat) returns (r: Result<nat>)
    ensures r.Ok? <==> element <= |formats|
    ensures r.Panicked? ==> r.reason == IndexOutOfBounds
    ensures r.Ok? ==> r.value == SizeSum(formats[..element])
  {
    var offset := 0;
    for i := 0 to element
      invariant i <= |formats| && offset == SizeSum(formats[..i])
    {
      if i >= |formats| {
        return Panicked(IndexOutOfBounds);
      }
      assert formats[..i + 1][..i] == formats[..i];
      offset := offset + Size(formats[i]);
    }
    r := Ok(offset);
  }

  /** Offsets grow with the attribute position. */
  lemma {:induction false} OffsetMonotone(formats: seq<VertexFormat>, i: nat, j: nat)
    requires i <= j <= |formats|
    ensures SizeSum(formats[..i]) <= SizeSum(formats[..j])
    decreases j - i
  {
    if i < j {
      OffsetMonotone(formats, i, j - 1);
      assert formats[..j][..j - 1] == formats[..j - 1];
    }
  }

  /** The offset past the last attribute is the stride. */
  lemma OffsetAtEnd(formats: seq<VertexFormat>)
    ensures SizeSum(formats[..|formats|]) == SizeSum(formats)
  {
    assert formats[..|formats|] == formats;
  }

  /** Attribute `k` lies within the vertex: its bytes end at or before the
      stride. */
  lemma AttributeFitsInStride(formats: seq<VertexFormat>, k: nat)
    requires k < |formats|
    ensures SizeSum(formats[..k]) + Size(formats[k]) <= SizeSum(formats)
  {
    AttributesDisjoint(formats, k, |formats|);
    OffsetAtEnd(formats);
  }

  /** Attributes do not overlap: attribute `i` ends at or before the offset
      of every later attribute `j` (or of the vertex end, `j == |formats|`). */
  lemma AttributesDisjoint(formats: seq<VertexFormat>, i: nat, j: nat)
    requires i < j <= |formats|
    ensures SizeSum(formats[..i]) + Size(formats[i]) <= SizeSum(formats[..j])
  {
    assert formats[..i + 1][..i] == formats[..i];
    OffsetMonotone(formats, i + 1, j);
  }
}
