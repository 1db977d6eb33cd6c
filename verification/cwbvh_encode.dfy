/** Triangle extraction and the conversion of a compressed-wide BVH, as the
    external builder returns it, into the node and primitive records the
    traversal shaders read (`obvh_to_tinybvh` in crates/albedo_rtx/src/blas.rs). */
module CwbvhEncode {
  import opened Wrappers
  import opened Ints
  import opened Geometry

  datatype Triangle = Triangle(v0: Vec3, v1: Vec3, v2: Vec3)

  /** Three bytes, one per axis. */
  datatype Byte3 = Byte3(x: u8, y: u8, z: u8)

  /** Eight per-child bytes of a wide node (metadata or one quantized bound). */
  type Lanes = s: seq<u8> | |s| == 8 witness [0, 0, 0, 0, 0, 0, 0, 0]

  /** A node as the builder produces it: the base corner `p`, the biased
      per-axis exponents `e`, and the child layout. */
  datatype BuilderNode = BuilderNode(
    p: Vec3, e: Byte3, imask: u8,
    childBaseIdx: u32, primitiveBaseIdx: u32, childMeta: Lanes,
    childMinX: Lanes, childMinY: Lanes, childMinZ: Lanes,
    childMaxX: Lanes, childMaxY: Lanes, childMaxZ: Lanes)

  /** What the builder returns: its node list and the permutation of
      triangle indices that leaves refer to. */
  datatype BuilderBvh = BuilderBvh(nodes: seq<BuilderNode>, primitiveIndices: seq<u32>)

  /** The GPU node record (`BVHNode`). */
  datatype BvhNode = BvhNode(
    min: Vec3, exyz: Byte3, imask: u8,
    childBaseIdx: u32, primitiveBaseIdx: u32, childMeta: Lanes,
    qloX: Lanes, qloY: Lanes, qloZ: Lanes,
    qhiX: Lanes, qhiY: Lanes, qhiZ: Lanes)

  /** The GPU intersection record (`BVHPrimitive`). */
  datatype BvhPrimitive = BvhPrimitive(
    edge1: Vec3, padding0: u32, edge2: Vec3, padding1: u32,
    vertex0: Vec3, originalPrimitive: u32)

  /** The triangle made of positions `3i`, `3i+1`, `3i+2`. */
  function TriangleAt(positions: seq<Vec4>, i: nat): Triangle
    requires 3 * i + 2 < |positions|
  {
    Triangle(Xyz(positions[3 * i]), Xyz(positions[3 * i + 1]), Xyz(positions[3 * i + 2]))
  }

  /** Cuts a position list into triangles of three consecutive positions;
      fewer than three trailing positions are dropped. */
  function Triangles(positions: seq<Vec4>): (tris: seq<Triangle>)
    ensures |tris| == |positions| / 3
    ensures forall i :: 0 <= i < |tris| ==> 3 * i + 2 < |positions| && tris[i] == TriangleAt(positions, i)
    decreases |positions|
  {
    if |positions| < 3 then []
    else [Triangle(Xyz(positions[0]), Xyz(positions[1]), Xyz(positions[2]))] + Triangles(positions[3..])
  }

  /** `e.wrapping_sub(127)` on a `u8`. */
  function ExponentByte(e: u8): u8 { (e - 127) % U8_MODULUS }

  /** One builder node re-encoded for the traversal code. */
  function EncodeNode(n: BuilderNode): BvhNode
  {
    BvhNode(
      n.p, Byte3(ExponentByte(n.e.x), ExponentByte(n.e.y), ExponentByte(n.e.z)), n.imask,
      n.childBaseIdx, (n.primitiveBaseIdx * 3) % U32_MODULUS, n.childMeta,
      n.childMinX, n.childMinY, n.childMinZ,
      n.childMaxX, n.childMaxY, n.childMaxZ)
  }

  /** What an encoded node means to the traversal code: each exponent byte,
      read as a signed byte, is the builder's exponent with its bias of 127
      removed (adding the bias back recovers the builder's byte); the
      primitive base is three times the builder's (modulo 2^32); the base
      corner, masks, child base and quantized child bounds are the builder's. */
  lemma EncodeNodeMeaning(n: BuilderNode)
    ensures var r := EncodeNode(n);
      && (n.e.x < 255 ==> AsI8(r.exyz.x) == n.e.x - 127)
      && (n.e.y < 255 ==> AsI8(r.exyz.y) == n.e.y - 127)
      && (n.e.z < 255 ==> AsI8(r.exyz.z) == n.e.z - 127)
      && (r.exyz.x + 127) % U8_MODULUS == n.e.x
      && (r.exyz.y + 127) % U8_MODULUS == n.e.y
      && (r.exyz.z + 127) % U8_MODULUS == n.e.z
      && (3 * n.primitiveBaseIdx < U32_MODULUS ==> r.primitiveBaseIdx == 3 * n.primitiveBaseIdx)
      && r.primitiveBaseIdx == (3 * n.primitiveBaseIdx) % U32_MODULUS
      && r.min == n.p && r.imask == n.imask && r.childBaseIdx == n.childBaseIdx && r.childMeta == n.childMeta
      && r.qloX == n.childMinX && r.qloY == n.childMinY && r.qloZ == n.childMinZ
      && r.qhiX == n.childMaxX && r.qhiY == n.childMaxY && r.qhiZ == n.childMaxZ
  {
  }

  /** The builder's nodes encoded one by one, in order. */
  function EncodeNodes(nodes: seq<BuilderNode>): (r: seq<BvhNode>)
    ensures |r| == |nodes|
    ensures forall k :: 0 <= k < |nodes| ==> r[k] == EncodeNode(nodes[k])
  {
    if nodes == [] then []
    else EncodeNodes(nodes[..|nodes| - 1]) + [EncodeNode(nodes[|nodes| - 1])]
  }

  /** The intersection record of one triangle: the first corner and the two
      edges leaving it, `edge1` towards `v2` and `edge2` towards `v1`. */
  function EncodePrimitive(tri: Triangle, index: u32): BvhPrimitive
  {
    BvhPrimitive(Sub(tri.v2, tri.v0), 0, Sub(tri.v1, tri.v0), 0, tri.v0, index)
  }

  /** The triangle a traversal shader rebuilds from an intersection record. */
  function DecodePrimitive(p: BvhPrimitive): Triangle
  {
    Triangle(p.vertex0, Add(p.vertex0, p.edge2), Add(p.vertex0, p.edge1))
  }

  predicate IndicesInRange(indices: seq<u32>, count: nat)
  {
    forall k :: 0 <= k < |indices| ==> indices[k] < count
  }

  /** One intersection record per entry of the builder's permutation, in
      permutation order. */
  function EncodePrimitives(tris: seq<Triangle>, indices: seq<u32>): (r: seq<BvhPrimitive>)
    requires IndicesInRange(indices, |tris|)
    ensures |r| == |indices|
    ensures forall k :: 0 <= k < |indices| ==> r[k] == EncodePrimitive(tris[indices[k]], indices[k])
  {
    if indices == [] then []
    else EncodePrimitives(tris, indices[..|indices| - 1])
         + [EncodePrimitive(tris[indices[|indices| - 1]], indices[|indices| - 1])]
  }

  lemma DecodeEncodePrimitive(tri: Triangle, index: u32)
    ensures DecodePrimitive(EncodePrimitive(tri, index)) == tri
    ensures EncodePrimitive(tri, index).originalPrimitive == index
    ensures EncodePrimitive(tri, index).padding0 == 0 && EncodePrimitive(tri, index).padding1 == 0
  {
  }

  /** The builder's contract: `indices` lists each of `0..count` exactly once. */
  predicate IsPermutation(indices: seq<u32>, count: nat)
  {
    && |indices| == count
    && IndicesInRange(indices, count)
    && forall a, b :: 0 <= a < b < |indices| ==> indices[a] != indices[b]
  }

  function Originals(prims: seq<BvhPrimitive>): (r: seq<u32>)
    ensures |r| == |prims|
    ensures forall k :: 0 <= k < |prims| ==> r[k] == prims[k].originalPrimitive
  {
    seq(|prims|, k requires 0 <= k < |prims| => prims[k].originalPrimitive)
  }

  /** `{0, …, n-1}`. */
  function UpTo(n: nat): (s: set<int>)
    ensures forall x :: x in s <==> 0 <= x < n
    ensures |s| == n
  {
    if n == 0 then {} else UpTo(n - 1) + {n - 1}
  }

  /** A sequence without repeated elements has as many distinct elements as
      it has entries. */
  lemma {:induction false} DistinctCardinality(s: seq<u32>)
    requires forall a, b :: 0 <= a < b < |s| ==> s[a] != s[b]
    ensures |set k | 0 <= k < |s| :: s[k]| == |s|
  {
    if s != [] {
      var init := s[..|s| - 1];
      DistinctCardinality(init);
      var before := set k | 0 <= k < |init| :: init[k];
      var after := set k | 0 <= k < |s| :: s[k];
      assert after == before + {s[|s| - 1]};
      assert s[|s| - 1] !in before;
    }
  }

  /** A permutation of `0..count` mentions every index in that range. */
  lemma PermutationCovers(indices: seq<u32>, count: nat)
    requires IsPermutation(indices, count)
    ensures forall t :: 0 <= t < count ==> t in indices
  {
    var seen := set k | 0 <= k < |indices| :: indices[k] as int;
    DistinctCardinality(indices);
    assert seen <= UpTo(count);
    assert |UpTo(count) - seen| == |UpTo(count)| - |seen| == 0;
    assert UpTo(count) - seen == {};
    forall t | 0 <= t < count
      ensures t in indices
    {
      assert t in UpTo(count);
      assert t in seen;
      var k :| 0 <= k < |indices| && indices[k] as int == t;
    }
  }

  /** With a permutation from the builder, the records number exactly the
      triangles, every triangle has exactly one record, and each record
      rebuilds the triangle its `originalPrimitive` names. */
  lemma PermutationEncodesEveryTriangleOnce(tris: seq<Triangle>, indices: seq<u32>)
    requires IsPermutation(indices, |tris|)
    ensures IndicesInRange(indices, |tris|)
    ensures var prims := EncodePrimitives(tris, indices);
      && |prims| == |tris|
      && IsPermutation(Originals(prims), |tris|)
      && (forall t :: 0 <= t < |tris| ==> t in Originals(prims))
      && (forall k :: 0 <= k < |prims| ==> DecodePrimitive(prims[k]) == tris[prims[k].originalPrimitive])
  {
    var prims := EncodePrimitives(tris, indices);
    assert Originals(prims) == indices;
    PermutationCovers(indices, |tris|);
    forall k | 0 <= k < |prims|
      ensures DecodePrimitive(prims[k]) == tris[prims[k].originalPrimitive]
    {
      DecodeEncodePrimitive(tris[indices[k]], indices[k]);
    }
  }

  /** The encoded form of one mesh. */
  datatype Encoded = Encoded(nodes: seq<BvhNode>, primitives: seq<BvhPrimitive>)

  /** The triangle list handed to the builder: one triangle per three
      consecutive positions, trailing positions ignored. */
  method ExtractTriangles(positions: seq<Vec4>) returns (tris: seq<Triangle>)
    ensures |tris| == |positions| / 3
    ensures forall i :: 0 <= i < |tris| ==> 3 * i + 2 < |positions| && tris[i] == TriangleAt(positions, i)
    ensures tris == Triangles(positions)
  {
    var count := |positions| / 3;
    tris := [];
    for i := 0 to count
      invariant |tris| == i
      invariant forall j :: 0 <= j < i ==> 3 * j + 2 < |positions| && tris[j] == TriangleAt(positions, j)
    {
      var index := i * 3;
      tris := tris + [Triangle(Xyz(positions[index]), Xyz(positions[index + 1]), Xyz(positions[index + 2]))];
    }
  }

  /** The builder's nodes converted one by one, in order. */
  method ConvertNodes(builderNodes: seq<BuilderNode>) returns (nodes: seq<BvhNode>)
    ensures |nodes| == |builderNodes|
    ensures forall k :: 0 <= k < |builderNodes| ==> nodes[k] == EncodeNode(builderNodes[k])
  {
    nodes := [];
    for k := 0 to |builderNodes|
      invariant |nodes| == k
      invariant forall j :: 0 <= j < k ==> nodes[j] == EncodeNode(builderNodes[j])
    {
      nodes := nodes + [EncodeNode(builderNodes[k])];
    }
  }

  /** One intersection record per entry of the builder's permutation, in
      order; panics when an entry names a triangle that does not exist. */
  method ConvertPrimitives(tris: seq<Triangle>, indices: seq<u32>) returns (r: Result<seq<BvhPrimitive>>)
    ensures r.Ok? <==> IndicesInRange(indices, |tris|)
    ensures r.Panicked? ==> r.reason == IndexOutOfBounds
    ensures r.Ok? ==> |r.value| == |indices|
    ensures r.Ok? ==> forall k :: 0 <= k < |indices| ==> r.value[k] == EncodePrimitive(tris[indices[k]], indices[k])
  {
    var primitives: seq<BvhPrimitive> := [];
    for k := 0 to |indices|
      invariant IndicesInRange(indices[..k], |tris|)
      invariant |primitives| == k
      invariant forall j :: 0 <= j < k ==> primitives[j] == EncodePrimitive(tris[indices[j]], indices[j])
    {
      var index := indices[k];
      if index >= |tris| {
        return Panicked(IndexOutOfBounds);
      }
      var tri := tris[index];
      primitives := primitives + [BvhPrimitive(Sub(tri.v2, tri.v0), 0, Sub(tri.v1, tri.v0), 0, tri.v0, index)];
    }
    assert indices[..|indices|] == indices;
    r := Ok(primitives);
  }

  /** Extracts the triangles of `positions`, builds the hierarchy with
      `build` (the external builder with its medium preset) and converts its
      nodes and primitives. Panics when the builder names a triangle that
      does not exist. */
  method ObvhToTinybvh(positions: seq<Vec4>, build: seq<Triangle> -> BuilderBvh) returns (r: Result<Encoded>)
    ensures r.Ok? <==> IndicesInRange(build(Triangles(positions)).primitiveIndices, |positions| / 3)
    ensures r.Panicked? ==> r.reason == IndexOutOfBounds
    ensures r.Ok? ==> r.value.nodes == EncodeNodes(build(Triangles(positions)).nodes)
    ensures r.Ok? ==> r.value.primitives == EncodePrimitives(Triangles(positions), build(Triangles(positions)).primitiveIndices)
  {
    var tris := ExtractTriangles(positions);
    var bvh := build(tris);
    var nodes := ConvertNodes(bvh.nodes);
    var primitives := ConvertPrimitives(tris, bvh.primitiveIndices);
    if primitives.Panicked? {
      return Panicked(primitives.reason);
    }
    r := Ok(Encoded(nodes, primitives.value));
  }
}
