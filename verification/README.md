# albedo: bottom-level BVH aggregation and vertex-attribute storage

A Dafny model of two pieces of the albedo GPU path tracer.

**`BLASArray`** (crates/albedo_rtx/src/blas.rs) gathers the bottom-level
acceleration structures of many meshes into five shared arrays: `entries`,
`nodes`, `primitives`, `vertices` and `instances`.

- `add_bvh` and `add_bvh_indexed` each do the following for one mesh:
  - record one entry holding the current array lengths, as `u32`;
  - write the mesh's packed vertex run, with texcoord u in `position.w` and v in `normal.w`, de-indexing through the index array when there is one;
  - cut the positions into triangles;
  - hand the triangles to the external compressed-wide BVH builder;
  - convert the builder's nodes and its primitive permutation into the GPU records (`obvh_to_tinybvh`) and append them.
- `add_instance` copies one entry's three offsets into a new instance.

The model is module `Blas` (class `BLASArray`) and module `CwbvhEncode` (triangle extraction and the node and primitive encoding). A ghost log `added` of what each call appended lets the class invariant state that entry `k` records the cumulative sizes of meshes `0..k`, modulo 2^32.

**`Primitive` and `AttributeSlice`** (crates/albedo_backend/src/mesh/primitive.rs) store vertex attributes in one of two layouts:

- interleaved: one byte buffer;
- SoA (structure of arrays): one byte buffer per attribute.

They hand out strided, bounds-checked views of one attribute. Module `VertexFormats` holds the format sizes, the float and unsigned kinds, the stride and the attribute offsets. Module `MeshPrimitive` holds the two classes and the iterator.

- Byte buffers are Dafny `array<u8>`, which `set` and `index_mut` update in place.
- Element types are plain byte widths: `elemSize` stands for `size_of::<T>()` and `vSize` for `size_of::<V>()`.
- `set` is specified by the pure function `StridedWrite`. Its properties are lemmas:
  - element `k` is written at `byteOffset + stride*k`;
  - the rest of each stride is kept;
  - everything before the first element and after the last is kept.

Panics are values throughout. A function returns `Result` (`Ok` or `Panicked(reason)`). A state-changing method returns `Outcome` (`Completed` or `Aborted(reason)`). Where the code mutates before it panics, the model performs the same mutations and stops at the same point.

The model follows the code as written:

- The code floors `positions.len() / 3` and ignores trailing positions. It does not reject position counts that are not a multiple of three.
- `add_bvh` and `add_bvh_indexed` push the entry and grow `vertices` before anything can panic. They do not leave the arrays untouched on failure.
- A builder failure is not reported. An out-of-range permutation entry panics on `tris[index]`.
- `add_instance` stores the inverse without checking it.

## Model

| member | source | states |
|---|---|---|
| CwbvhEncode.Triangles | crates/albedo_rtx/src/blas.rs:58-70 | there are `positions.len() / 3` triangles (floored), and triangle `i` is the xyz of positions `3i`, `3i+1`, `3i+2` |
| CwbvhEncode.ExtractTriangles | crates/albedo_rtx/src/blas.rs:58-70 | the extraction loop produces exactly that triangle list |
| CwbvhEncode.EncodeNodeMeaning | crates/albedo_rtx/src/blas.rs:80-98 | each exponent byte is the builder's byte wrapping-minus 127; read as `i8` it is the unbiased exponent; adding 127 back mod 256 recovers the builder's byte; the primitive base is 3× the builder's mod 2^32 (exactly 3× when that fits); every other field is copied unchanged |
| CwbvhEncode.EncodeNodes | crates/albedo_rtx/src/blas.rs:78-100 | one encoded node per builder node, in order |
| CwbvhEncode.ConvertNodes | crates/albedo_rtx/src/blas.rs:78-100 | the node loop yields one encoded node per builder node, in order |
| CwbvhEncode.EncodePrimitives | crates/albedo_rtx/src/blas.rs:102-115 | one record per permutation entry, in permutation order, each encoding the triangle the entry names |
| CwbvhEncode.ConvertPrimitives | crates/albedo_rtx/src/blas.rs:102-115 | the primitive loop panics (out of bounds) exactly when some entry names no triangle; otherwise it yields the records above |
| CwbvhEncode.DecodeEncodePrimitive | crates/albedo_rtx/src/blas.rs:104-114 | `vertex0`, `v0 + edge2` and `v0 + edge1` rebuild the triangle; `original_primitive` is the index; both paddings are 0 |
| CwbvhEncode.PermutationCovers | crates/albedo_rtx/src/blas.rs:103 | a permutation of `0..count` mentions every index below `count` |
| CwbvhEncode.PermutationEncodesEveryTriangleOnce | crates/albedo_rtx/src/blas.rs:102-115 | with a bijective builder permutation, nothing panics; there are as many records as triangles; the records' `original_primitive`s are a permutation; each record rebuilds the triangle it names |
| CwbvhEncode.ObvhToTinybvh | crates/albedo_rtx/src/blas.rs:54-118 | panics exactly when the builder's permutation leaves the triangle range; otherwise it returns the encoded nodes and records of the extracted triangles |
| Blas.UnindexedRunMeaning | crates/albedo_rtx/src/blas.rs:139-155 | new vertex `j` has the xyz of `positions[j]`; it has `normals[j]` when present, else the zero normal; it has u in `position.w` and v in `normal.w` when a texcoord is present, else zeros |
| Blas.WriteUnindexedRun | crates/albedo_rtx/src/blas.rs:134-155 | the three passes complete exactly when neither normals nor texcoords outnumber the positions, and then produce that run; otherwise they panic with index out of bounds |
| Blas.WriteIndexedRun | crates/albedo_rtx/src/blas.rs:177-199 | the three passes complete exactly when every index is in range of the positions and of each present attribute; the run is then the de-indexed mesh, with the full 4-component position |
| Blas.IndexedTrianglesDeindex | crates/albedo_rtx/src/blas.rs:201-212 | the indexed path hands `indices.len() / 3` triangles to the builder; triangle `t` is made of the positions named by `indices[3t..3t+2]` |
| Blas.BLASArray.constructor | crates/albedo_rtx/src/blas.rs:121-125 | all five arrays start empty, and the invariant holds |
| Blas.BLASArray.PushEntry | crates/albedo_rtx/src/blas.rs:128-136 | pushes exactly one entry holding the three lengths as `u32`; appends `count` default vertices |
| Blas.BLASArray.AppendEncoded | crates/albedo_rtx/src/blas.rs:162-167 | appends the nodes and records after the existing ones, and nothing else changes |
| Blas.BLASArray.AddBvh | crates/albedo_rtx/src/blas.rs:127-168 | one entry at the old lengths; `vertices` grows by `positions.len()` with the earlier vertices kept; completes exactly when the run writes and the encoding do not panic; then `vertices`, `nodes` and `primitives` are the old contents followed by the run and the encoding; the invariant is kept |
| Blas.BLASArray.AddBvhIndexed | crates/albedo_rtx/src/blas.rs:170-216 | as `AddBvh`, with growth by `indices.len()`, the de-indexed run, and triangles cut from that run |
| Blas.BLASArray.AddInstance | crates/albedo_rtx/src/blas.rs:218-228 | panics exactly when the entry index is out of range; otherwise it appends one instance with the entry's node, vertex and primitive offsets, the material and the inverse; entries, nodes, primitives and vertices are unchanged |
| Blas.EntryOffsetsAccumulate | crates/albedo_rtx/src/blas.rs:128-132 | entry `k+1` is entry `k` plus what mesh `k` appended, per field, mod 2^32 |
| Blas.EntriesWithinArrays | crates/albedo_rtx/src/blas.rs:171-175 | entry `k` records the cumulative sizes of meshes `0..k`, and these never exceed the array lengths |
| VertexFormats.KindsDisjoint | crates/albedo_backend/src/mesh/primitive.rs:26-58 | no format is both float and unsigned; the signed formats are neither |
| VertexFormats.ComputeStride | crates/albedo_backend/src/mesh/primitive.rs:9-15 | the stride is the sum of the format sizes, and is positive when there is a format |
| VertexFormats.ByteOffsetFor | crates/albedo_backend/src/mesh/primitive.rs:17-24 | panics (out of bounds) exactly when `element > len`; otherwise returns the sum of the first `element` sizes |
| VertexFormats.OffsetMonotone | crates/albedo_backend/src/mesh/primitive.rs:17-24 | offsets grow with the attribute position |
| VertexFormats.OffsetAtEnd | crates/albedo_backend/src/mesh/primitive.rs:9-24 | the offset at `len` is the stride |
| VertexFormats.AttributeFitsInStride | crates/albedo_backend/src/mesh/primitive.rs:17-24 | offset(k) + size(k) ≤ stride |
| VertexFormats.AttributesDisjoint | crates/albedo_backend/src/mesh/primitive.rs:17-24 | attribute `i` ends at or before every later attribute's offset |
| MeshPrimitive.FirstIndexOf | crates/albedo_backend/src/mesh/primitive.rs:226 | the first position holding `x`, or `None` exactly when `x` is absent |
| MeshPrimitive.Primitive.AttributeIndex | crates/albedo_backend/src/mesh/primitive.rs:225-227 | the position of the first attribute with this id, or `None` exactly when no attribute has it |
| MeshPrimitive.Primitive.InterleavedWithCount | crates/albedo_backend/src/mesh/primitive.rs:148-163 | a fresh buffer of `count × stride` zero bytes; formats and ids in descriptor order; `count()` is `count`, and panics (division by zero) when there are no descriptors |
| MeshPrimitive.Primitive.SoaWithCount | crates/albedo_backend/src/mesh/primitive.rs:165-179 | one fresh empty buffer per attribute (capacity is only reserved); `count()` is 0, and panics (no first buffer) when there are no descriptors |
| MeshPrimitive.Primitive.Count | crates/albedo_backend/src/mesh/primitive.rs:249-254 | succeeds exactly when there is an attribute (and, for SoA, a first buffer); otherwise panics with division by zero (interleaved) or out of bounds (SoA) |
| MeshPrimitive.Primitive.CountIsWholeVertices | crates/albedo_backend/src/mesh/primitive.rs:249-254 | on a valid primitive, `count × stride` is the interleaved buffer length, and `count × size` is the first SoA buffer's length |
| MeshPrimitive.Primitive.Attribute | crates/albedo_backend/src/mesh/primitive.rs:181-209 | panics exactly for a missing attribute or an element wider than its format. Interleaved: stride = `compute_stride`, offset = `byte_offset_for`. SoA: stride = format size, offset 0. `byte_end` is the buffer length. The slice is valid (`SliceOf`) |
| MeshPrimitive.Primitive.AttributeFloat | crates/albedo_backend/src/mesh/primitive.rs:114-124 | panics exactly when the attribute is missing, not a float format, or narrower than the element, with the reason in that order; otherwise it returns the same slice as `attribute(index)` (`SliceOf`: buffer, stride, offset and end) |
| MeshPrimitive.Primitive.AttributeUnsigned | crates/albedo_backend/src/mesh/primitive.rs:128-138 | the same for the unsigned formats, returning the same slice as `attribute(index)` on success |
| MeshPrimitive.AttributeSlice.Len | crates/albedo_backend/src/mesh/primitive.rs:298-300 | `len()` whole strides make up the buffer exactly |
| MeshPrimitive.AttributeSlice.WithinLen | crates/albedo_backend/src/mesh/primitive.rs:309-313 | element `i` starts and ends inside the buffer when `i < len()`, and starts at or past its end otherwise |
| MeshPrimitive.AttributeSlice.Index | crates/albedo_backend/src/mesh/primitive.rs:309-317 | a result is `elemSize` bytes starting before `byte_end`; every modelled panic is out of bounds (the cast panics are left out) |
| MeshPrimitive.AttributeSlice.IndexWithinLen | crates/albedo_backend/src/mesh/primitive.rs:309-317 | on a valid slice, indexing succeeds exactly for `i < len()` and yields element `i`'s bytes (cast panics left out) |
| MeshPrimitive.AttributeSlice.IndexAsWritten | crates/albedo_backend/src/mesh/primitive.rs:309-317 | `index` as a release build runs it: the start byte wraps modulo 2^64; a result is `elemSize` bytes starting before `byte_end`; every modelled panic is out of bounds (cast panics left out) |
| MeshPrimitive.AttributeSlice.IndexAsWrittenBelowWrap | crates/albedo_backend/src/mesh/primitive.rs:310-311 | while `byte_offset + stride * index` stays below 2^64, the release build and the unbounded model give the same result |
| MeshPrimitive.IndexWrapsToFirstElement | crates/albedo_backend/src/mesh/primitive.rs:310-316 | with two 16-byte elements, `index(2^60)` panics in the model, but the release build returns element 0 |
| MeshPrimitive.AttributeSlice.CopyInto | crates/albedo_backend/src/mesh/primitive.rs:293-294 | the buffer becomes the old buffer with `value` spliced in at `start` |
| MeshPrimitive.AttributeSlice.IndexMut | crates/albedo_backend/src/mesh/primitive.rs:324-333 | panics with the buffer unchanged exactly when `index` would. Otherwise the element's bytes become `value`, reading it back gives `value`, and every other byte is unchanged (cast panics left out) |
| MeshPrimitive.AttributeSlice.Set | crates/albedo_backend/src/mesh/primitive.rs:274-296 | panics, with the buffer unchanged, when `vSize > elemSize` (too wide) or there are more values than `len()` (too large); otherwise every value fits at its strided position and the buffer is the strided write of the values |
| MeshPrimitive.AttributeSlice.CopyElements | crates/albedo_backend/src/mesh/primitive.rs:290-295 | the copy loop leaves the buffer equal to the strided write of the values |
| MeshPrimitive.AttributeSlice.FitsFrom | crates/albedo_backend/src/mesh/primitive.rs:284-287 | no more than `len()` values of at most `elemSize` bytes fit at their strided positions |
| MeshPrimitive.SetWrites | crates/albedo_backend/src/mesh/primitive.rs:290-295 | after `set`, byte `j` of element `k` is byte `j` of `values[k]` |
| MeshPrimitive.SetKeepsRestOfStride | crates/albedo_backend/src/mesh/primitive.rs:290-295 | after `set`, the bytes of each written stride past the value keep their old content |
| MeshPrimitive.SetKeepsOutside | crates/albedo_backend/src/mesh/primitive.rs:290-295 | after `set`, the bytes before the first element and from element `values.len()` on keep their old content |
| MeshPrimitive.AttributeSlice.Iter | crates/albedo_backend/src/mesh/primitive.rs:267-272 | a fresh iterator over this slice at index 0 |
| MeshPrimitive.AttributeSliceIter.Next | crates/albedo_backend/src/mesh/primitive.rs:347-354 | returns `None` exactly once `len()` elements have been yielded; otherwise returns the element at `index` and advances. The remaining sequence loses exactly its head, so the iterator yields `slice[0]`, `slice[1]`, … in order (cast panics left out) |

## Left out

- The BVH construction (`build_cwbvh_from_tris` with its medium preset) is a foreign library. It is the parameter `build` of `AddBvh`, `AddBvhIndexed` and `ObvhToTinybvh`. Its permutation contract is a hypothesis of `PermutationEncodesEveryTriangleOnce`, not an assumption of the model. A non-bijective permutation is modelled as the code behaves: an out-of-range entry panics.
- The `tinybvh` feature path (`cwbvh::BVH::new_hq`) is another foreign builder; only the default path is modelled.
- `glam::Mat4::inverse` is the parameter `inverse` of `AddInstance`.
- Only the 34 vertex formats of `VertexFormat` are modelled. Newer graphics-API formats such as `Uint8`, `Unorm8x4Bgra` and `Unorm10_10_10_2` are not, although the source's `_ => false` arms would classify them as neither float nor unsigned.
- `f32` arithmetic is modelled with `real`, so IEEE rounding, NaN and infinities are not modelled.
- Blas.BLASArray.AddBvh: `len() as u32` is modelled as wrapping modulo 2^32. Vector growth past `usize` is not modelled.
- Blas.BLASArray.AddBvhIndexed: the same as `AddBvh` for `len() as u32` and `usize` growth.
- CwbvhEncode.EncodeNode: `primitive_base_idx * 3` wraps modulo 2^32. The debug-build overflow panic is not modelled.
- MeshPrimitive.Primitive.SoaWithCount: the reserved capacity `size * count` is not modelled, so neither is its `usize` overflow nor the capacity-overflow panic of `Vec::with_capacity`; the constructor never panics.
- MeshPrimitive.Primitive.InterleavedWithCount: `count as usize * stride` is unbounded, so the `usize` overflow is not modelled.
- The `bytemuck` casts are not modelled. Buffers are plain bytes and element types are byte widths, so the bytes of a `T` are not given a typed value.
- MeshPrimitive.AttributeSlice.Index: `byte_offset + stride * index` is unbounded, so an index past `len()` always panics. This matches a debug build, where the `usize` overflow itself panics. A release build wraps instead; `IndexAsWritten` models that, and it is listed under Findings.
- MeshPrimitive.AttributeSlice.IndexMut: the same unbounded start byte as `Index`. The release-build wrap (primitive.rs:325) would overwrite an element below `len()` instead of panicking.
- MeshPrimitive.AttributeSlice.Index: the alignment panic of the `bytemuck` cast (a start byte that is not a multiple of `align_of::<T>()`, such as offset 12 for `[f64; 2]` after a `Float32x3`) and the panic of `&cast[0]` for a zero-sized `T` are not modelled, so "every panic is out of bounds" holds only for aligned elements of non-zero width.
- MeshPrimitive.AttributeSlice.IndexAsWritten: the alignment panic of the `bytemuck` cast (a start byte that is not a multiple of `align_of::<T>()`, such as offset 12 for `[f64; 2]` after a `Float32x3`) and the panic of `&cast[0]` for a zero-sized `T` are not modelled, so its result is the release build's only for aligned elements of non-zero width.
- MeshPrimitive.AttributeSlice.IndexWithinLen: the alignment panic of the `bytemuck` cast (a start byte that is not a multiple of `align_of::<T>()`, such as offset 12 for `[f64; 2]` after a `Float32x3`) and the panic of `&cast[0]` for a zero-sized `T` are not modelled, so "succeeds exactly below `len()`" holds only for aligned elements of non-zero width.
- MeshPrimitive.AttributeSlice.IndexMut: the alignment panic of the `bytemuck` `cast_slice_mut` (a start byte that is not a multiple of `align_of::<T>()`, such as offset 12 for `[f64; 2]` after a `Float32x3`) and the panic of `&cast[0]` for a zero-sized `T` are not modelled, so it writes the element only for aligned elements of non-zero width.
- MeshPrimitive.AttributeSliceIter.Next: the alignment panic of the `bytemuck` cast (a start byte that is not a multiple of `align_of::<T>()`, such as offset 12 for `[f64; 2]` after a `Float32x3`) and the panic of `&cast[0]` for a zero-sized `T` are not modelled, so it yields every element below `len()` only for aligned elements of non-zero width.
- MeshPrimitive.AttributeSlice.Index also folds two panics into one reason: the `start_byte >= byte_end` panic, and the panic of the slice range that runs past the buffer. On valid slices the second never happens (`IndexWithinLen`).
- The typed accessors (`attribute_f32` … `attribute_u32x4`) are two methods that take the element width as a parameter. They are not twelve macro instances.
- `attribute_format` is inlined as `formats[index]` in `AttributeFloat` and `AttributeUnsigned`, with its out-of-bounds panic.
- `attribute_count`, `set_indices*` and `IndexData` are plain field reads and writes used by nothing modelled.
- `AttributeDescriptor::new/position/normal/tex_coords_0` are plain record constructors. The three ids are constants.
- `as_vertex_buffer_layout`, `PrimitiveResourceBuilder` and `Debug for IndexData` are GPU buffer creation and formatting.
- The GPU passes (`a_trous.rs`, `accumulation.rs`, `ray.rs`), renderer resources, `get_dispatch_size` (float `ceil`), the lightmapper's FFI and global state, and the glTF loader are outside this model.
- The Rust borrow rules are not modelled. `AttributeSlice` and its iterator hold a reference to the buffer, and nothing stops a caller from aliasing it.

## Findings

| source | as written | input that shows it | evidently intended | confidence | as-written member | corrected member |
|---|---|---|---|---|---|---|
| crates/albedo_backend/src/mesh/primitive.rs:310-311, 325-326 | `start_byte = byte_offset + stride * index` is plain `usize` arithmetic, which wraps in a release build, and the only bounds check is on the wrapped value | a slice of two 16-byte elements (`byte_offset` 0, stride 16, 32 bytes) and `index = 2^60`: `16 * 2^60` wraps to 0, so `index` returns element 0 (and `index_mut` writes it) | every index at or past `len()` panics with "index out of bounds" | not executed; release builds on 64-bit targets only (debug builds panic on the overflow) | MeshPrimitive.AttributeSlice.IndexAsWritten, MeshPrimitive.IndexWrapsToFirstElement | MeshPrimitive.AttributeSlice.Index, MeshPrimitive.AttributeSlice.IndexWithinLen |
