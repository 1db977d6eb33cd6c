/** The bottom-level acceleration-structure aggregator (`BLASArray` in
    crates/albedo_rtx/src/blas.rs): several meshes' vertices, BVH nodes and
    intersection records appended to shared arrays, one entry per mesh
    recording where its data starts, and an instance table that refers to
    entries by those offsets. */
module Blas {
  import opened Wrappers
  import opened Ints
  import opened Geometry
  import opened CwbvhEncode

  /** `BLASEntryDescriptor`: where one mesh's nodes, primitives and vertices
      start in the shared arrays. */
  datatype Entry = Entry(node: u32, primitive: u32, vertex: u32)

  /** The packed vertex: texcoord u rides in `position.w`, v in `normal.w`. */
  datatype Vertex = Vertex(position: Vec4, normal: Vec4)

  const DefaultVertex: Vertex := Vertex(Zero4, Zero4)

  /** An unindexed mesh: positions and, optionally, normals and texcoords. */
  datatype MeshDescriptor = MeshDescriptor(positions: seq<Vec4>, normals: Option<seq<Vec3>>, texcoords0: Option<seq<Uv>>)

  /** A mesh read through an index array. */
  datatype IndexedMeshDescriptor = IndexedMeshDescriptor(mesh: MeshDescriptor, indices: seq<u32>)

  /** A placed copy of one entry's hierarchy. */
  datatype Instance = Instance(
    modelToWorld: Mat4, worldToModel: Mat4, materialIndex: u32,
    bvhRootIndex: u32, vertexRootIndex: u32, bvhPrimitiveIndex: u32)

  /** How many nodes, primitives and vertices one call appended. */
  datatype Growth = Growth(nodes: nat, primitives: nat, vertices: nat)

  function Plus(a: Growth, b: Growth): Growth
  {
    Growth(a.nodes + b.nodes, a.primitives + b.primitives, a.vertices + b.vertices)
  }

  /** The combined growth of a sequence of calls. */
  function Total(gs: seq<Growth>): Growth
  {
    if gs == [] then Growth(0, 0, 0) else Plus(Total(gs[..|gs| - 1]), gs[|gs| - 1])
  }

  /** The entry recorded when the arrays hold `g` elements (`len() as u32`). */
  function EntryFor(g: Growth): Entry
  {
    Entry(WrapU32(g.nodes), WrapU32(g.primitives), WrapU32(g.vertices))
  }

  /** `i < j` calls contributed no more than `j` calls. */
  lemma {:induction false} TotalPrefixMonotone(gs: seq<Growth>, i: nat, j: nat)
    requires i <= j <= |gs|
    ensures Total(gs[..i]).nodes <= Total(gs[..j]).nodes
    ensures Total(gs[..i]).primitives <= Total(gs[..j]).primitives
    ensures Total(gs[..i]).vertices <= Total(gs[..j]).vertices
    decreases j - i
  {
    if i < j {
      TotalPrefixMonotone(gs, i, j - 1);
      assert gs[..j][..j - 1] == gs[..j - 1];
    }
  }

  /** The normal packed into a vertex: `n` with `w = 0`, or the default. */
  function PackVertex(p: Vec4, n: Option<Vec3>, uv: Option<Uv>): Vertex
  {
    Vertex(
      if uv.Some? then p.(w := uv.value.u) else p,
      Vec4(if n.Some? then n.value.x else 0.0,
           if n.Some? then n.value.y else 0.0,
           if n.Some? then n.value.z else 0.0,
           if uv.Some? then uv.value.v else 0.0))
  }

  /** Element `j` of an optional attribute array, if present and long enough. */
  function At<T>(o: Option<seq<T>>, j: nat): Option<T>
  {
    if o.Some? && j < |o.value| then Some(o.value[j]) else None
  }

  /** `add_bvh` panics when normals or texcoords outnumber the positions. */
  predicate UnindexedPanics(mesh: MeshDescriptor)
  {
    || (mesh.normals.Some? && |mesh.normals.value| > |mesh.positions|)
    || (mesh.texcoords0.Some? && |mesh.texcoords0.value| > |mesh.positions|)
  }

  /** Vertex `j` of the run `add_bvh` writes: the position's xyz with w = u,
      the normal with w = v, and zeros where an attribute is absent. */
  function UnindexedVertex(mesh: MeshDescriptor, j: nat): Vertex
    requires j < |mesh.positions|
  {
    PackVertex(mesh.positions[j].(w := 0.0), At(mesh.normals, j), At(mesh.texcoords0, j))
  }

  function UnindexedRun(mesh: MeshDescriptor): (run: seq<Vertex>)
    ensures |run| == |mesh.positions|
  {
    seq(|mesh.positions|, j requires 0 <= j < |mesh.positions| => UnindexedVertex(mesh, j))
  }

  /** What `add_bvh` writes for vertex `j`: the position's xyz; its normal
      when there is one for `j`, else the zero normal; and the texcoord
      split across the two `w` components when there is one, else zeros. */
  lemma UnindexedRunMeaning(mesh: MeshDescriptor, j: nat)
    requires j < |mesh.positions|
    ensures var v := UnindexedRun(mesh)[j]; var p := mesh.positions[j];
      && Xyz(v.position) == Xyz(p)
      && (mesh.normals.Some? && j < |mesh.normals.value| ==> Xyz(v.normal) == mesh.normals.value[j])
      && (!(mesh.normals.Some? && j < |mesh.normals.value|) ==> Xyz(v.normal) == Vec3(0.0, 0.0, 0.0))
      && (mesh.texcoords0.Some? && j < |mesh.texcoords0.value| ==>
            v.position.w == mesh.texcoords0.value[j].u && v.normal.w == mesh.texcoords0.value[j].v)
      && (!(mesh.texcoords0.Some? && j < |mesh.texcoords0.value|) ==> v.position.w == 0.0 && v.normal.w == 0.0)
  {
  }

  /** `add_bvh_indexed` panics when an index is out of range of the
      positions, or of the normals or texcoords that are present. */
  predicate IndexedPanics(desc: IndexedMeshDescriptor)
  {
    exists i :: 0 <= i < |desc.indices| && IndexFails(desc.mesh, desc.indices[i])
  }

  predicate IndexFails(mesh: MeshDescriptor, index: u32)
  {
    || index >= |mesh.positions|
    || (mesh.normals.Some? && index >= |mesh.normals.value|)
    || (mesh.texcoords0.Some? && index >= |mesh.texcoords0.value|)
  }

  /** Vertex `i` of the de-indexed run: everything resolved through
      `indices[i]`; the position keeps all four components unless a
      texcoord overwrites its w. */
  function IndexedVertex(desc: IndexedMeshDescriptor, i: nat): Vertex
    requires i < |desc.indices| && !IndexFails(desc.mesh, desc.indices[i])
  {
    var index := desc.indices[i];
    PackVertex(desc.mesh.positions[index], At(desc.mesh.normals, index), At(desc.mesh.texcoords0, index))
  }

  function IndexedRun(desc: IndexedMeshDescriptor): (run: seq<Vertex>)
    requires !IndexedPanics(desc)
    ensures |run| == |desc.indices|
  {
    seq(|desc.indices|, i requires 0 <= i < |desc.indices| && !IndexedPanics(desc) => IndexedVertex(desc, i))
  }

  /** The positions column of a vertex run (`pas::Slice::new(vertices, 0)`). */
  function RunPositions(run: seq<Vertex>): (ps: seq<Vec4>)
    ensures |ps| == |run|
    ensures forall i :: 0 <= i < |run| ==> ps[i] == run[i].position
  {
    seq(|run|, i requires 0 <= i < |run| => run[i].position)
  }

  /** The triangles the indexed path hands to the builder. */
  function IndexedTriangles(desc: IndexedMeshDescriptor): seq<Triangle>
    requires !IndexedPanics(desc)
  {
    Triangles(RunPositions(IndexedRun(desc)))
  }

  /** The indexed path's triangle `t` is made of the positions named by
      `indices[3t]`, `indices[3t+1]` and `indices[3t+2]`, and there are
      `|indices| / 3` of them. */
  lemma IndexedTrianglesDeindex(desc: IndexedMeshDescriptor, t: nat)
    requires !IndexedPanics(desc)
    ensures |IndexedTriangles(desc)| == |desc.indices| / 3
    ensures t < |desc.indices| / 3 ==>
      3 * t + 2 < |desc.indices| &&
      IndexedTriangles(desc)[t] == Triangle(
        Xyz(desc.mesh.positions[desc.indices[3 * t]]),
        Xyz(desc.mesh.positions[desc.indices[3 * t + 1]]),
        Xyz(desc.mesh.positions[desc.indices[3 * t + 2]]))
  {
    if t < |desc.indices| / 3 {
      var run := IndexedRun(desc);
      assert !IndexFails(desc.mesh, desc.indices[3 * t]);
      assert !IndexFails(desc.mesh, desc.indices[3 * t + 1]);
      assert !IndexFails(desc.mesh, desc.indices[3 * t + 2]);
      assert Xyz(run[3 * t].position) == Xyz(desc.mesh.positions[desc.indices[3 * t]]);
      assert Xyz(run[3 * t + 1].position) == Xyz(desc.mesh.positions[desc.indices[3 * t + 1]]);
      assert Xyz(run[3 * t + 2].position) == Xyz(desc.mesh.positions[desc.indices[3 * t + 2]]);
    }
  }

  /** Fills a run of default vertices for an unindexed mesh: positions
      (w = 0), then normals, then texcoords, each in its own pass over its
      own array. A normal or texcoord beyond the run panics; the passes
      before it have then already written the run. */
  method WriteUnindexedRun(mesh: MeshDescriptor, run0: seq<Vertex>) returns (r: Outcome, run: seq<Vertex>)
    requires |run0| == |mesh.positions|
    requires forall j :: 0 <= j < |run0| ==> run0[j] == DefaultVertex
    ensures |run| == |run0|
    ensures r.Completed? <==> !UnindexedPanics(mesh)
    ensures r.Aborted? ==> r.reason == IndexOutOfBounds
    ensures r.Completed? ==> run == UnindexedRun(mesh)
  {
    var n := |mesh.positions|;
    run := run0;
    for i := 0 to n
      invariant |run| == n
      invariant forall j :: 0 <= j < n ==>
        run[j] == if j < i then PackVertex(mesh.positions[j].(w := 0.0), None, None) else DefaultVertex
    {
      var pos := mesh.positions[i];
      run := run[i := run[i].(position := Vec4(pos.x, pos.y, pos.z, 0.0))];
    }
    if mesh.normals.Some? {
      var normals := mesh.normals.value;
      for i := 0 to |normals|
        invariant i <= n && |run| == n
        invariant forall j :: 0 <= j < n ==>
          run[j] == PackVertex(mesh.positions[j].(w := 0.0), if j < i then At(mesh.normals, j) else None, None)
      {
        if i >= n {
          return Aborted(IndexOutOfBounds), run;
        }
        var normal := normals[i];
        run := run[i := run[i].(normal := Vec4(normal.x, normal.y, normal.z, 0.0))];
      }
    }
    if mesh.texcoords0.Some? {
      var texcoord := mesh.texcoords0.value;
      for i := 0 to |texcoord|
        invariant i <= n && |run| == n
        invariant forall j :: 0 <= j < n ==>
          run[j] == PackVertex(mesh.positions[j].(w := 0.0), At(mesh.normals, j), if j < i then At(mesh.texcoords0, j) else None)
      {
        if i >= n {
          return Aborted(IndexOutOfBounds), run;
        }
        var uv := texcoord[i];
        run := run[i := Vertex(run[i].position.(w := uv.u), run[i].normal.(w := uv.v))];
      }
    }
    r := Completed;
  }

  /** Fills a run of default vertices with the de-indexed mesh: positions,
      then normals, then texcoords, each resolved through `indices[i]` in its
      own pass. The first index out of range of the array being read panics. */
  method WriteIndexedRun(desc: IndexedMeshDescriptor, run0: seq<Vertex>) returns (r: Outcome, run: seq<Vertex>)
    requires |run0| == |desc.indices|
    requires forall j :: 0 <= j < |run0| ==> run0[j] == DefaultVertex
    ensures |run| == |run0|
    ensures r.Completed? <==> !IndexedPanics(desc)
    ensures r.Aborted? ==> r.reason == IndexOutOfBounds
    ensures r.Completed? ==> run == IndexedRun(desc)
  {
    var mesh := desc.mesh;
    var indices := desc.indices;
    var m := |indices|;
    run := run0;
    for i := 0 to m
      invariant |run| == m
      invariant forall j :: 0 <= j < i ==> indices[j] < |mesh.positions|
      invariant forall j :: 0 <= j < m ==>
        run[j] == if j < i then PackVertex(mesh.positions[indices[j]], None, None) else DefaultVertex
    {
      if indices[i] >= |mesh.positions| {
        assert IndexFails(mesh, indices[i]);
        return Aborted(IndexOutOfBounds), run;
      }
      var position := mesh.positions[indices[i]];
      run := run[i := run[i].(position := position)];
    }
    if mesh.normals.Some? {
      var normals := mesh.normals.value;
      for i := 0 to m
        invariant |run| == m
        invariant forall j :: 0 <= j < i ==> indices[j] < |normals|
        invariant forall j :: 0 <= j < m ==>
          run[j] == PackVertex(mesh.positions[indices[j]], if j < i then At(mesh.normals, indices[j]) else None, None)
      {
        if indices[i] >= |normals| {
          assert IndexFails(mesh, indices[i]);
          return Aborted(IndexOutOfBounds), run;
        }
        var normal := normals[indices[i]];
        run := run[i := run[i].(normal := Vec4(normal.x, normal.y, normal.z, 0.0))];
      }
    }
    if mesh.texcoords0.Some? {
      var uvs := mesh.texcoords0.value;
      for i := 0 to m
        invariant |run| == m
        invariant forall j :: 0 <= j < i ==> indices[j] < |uvs|
        invariant forall j :: 0 <= j < m ==>
          run[j] == PackVertex(mesh.positions[indices[j]], At(mesh.normals, indices[j]), if j < i then At(mesh.texcoords0, indices[j]) else None)
      {
        if indices[i] >= |uvs| {
          assert IndexFails(mesh, indices[i]);
          return Aborted(IndexOutOfBounds), run;
        }
        var uv := uvs[indices[i]];
        run := run[i := Vertex(run[i].position.(w := uv.u), run[i].normal.(w := uv.v))];
      }
    }
    assert !IndexedPanics(desc) by {
      forall i | 0 <= i < m ensures !IndexFails(mesh, indices[i]) {
      }
    }
    r := Completed;
  }

  /** An instance carries the offsets of the entry it was made from. */
  predicate RefersTo(inst: Instance, e: Entry)
  {
    inst.bvhRootIndex == e.node && inst.vertexRootIndex == e.vertex && inst.bvhPrimitiveIndex == e.primitive
  }

  class BLASArray {
    var entries: seq<Entry>
    var nodes: seq<BvhNode>
    var primitives: seq<BvhPrimitive>
    var vertices: seq<Vertex>
    var instances: seq<Instance>

    /** What each `add_bvh`/`add_bvh_indexed` call appended, in call order. */
    ghost var added: seq<Growth>
    /** The entry each instance was made from. */
    ghost var instanceEntries: seq<nat>

    /** Every entry records the combined growth of the calls before it, the
        arrays hold exactly what the calls appended, and every instance
        carries the offsets of an existing entry. */
    ghost predicate Valid()
      reads this
    {
      && |added| == |entries|
      && (forall k :: 0 <= k < |entries| ==> entries[k] == EntryFor(Total(added[..k])))
      && Total(added) == Growth(|nodes|, |primitives|, |vertices|)
      && |instanceEntries| == |instances|
      && (forall j :: 0 <= j < |instances| ==>
            instanceEntries[j] < |entries| && RefersTo(instances[j], entries[instanceEntries[j]]))
    }

    constructor ()
      ensures Valid()
      ensures entries == [] && nodes == [] && primitives == [] && vertices == [] && instances == []
    {
      entries, nodes, primitives, vertices, instances := [], [], [], [], [];
      added, instanceEntries := [], [];
    }

    /** Records the entry for the next mesh and reserves `count` default
        vertices for it; the growth is counted as vertices only until the
        mesh's nodes and primitives are appended. */
    method PushEntry(count: nat) returns (start: nat)
      requires Valid()
      modifies this
      ensures Valid()
      ensures start == |old(vertices)|
      ensures entries == old(entries) + [Entry(WrapU32(|old(nodes)|), WrapU32(|old(primitives)|), WrapU32(|old(vertices)|))]
      ensures added == old(added) + [Growth(0, 0, count)]
      ensures vertices == old(vertices) + seq(count, _ => DefaultVertex)
      ensures nodes == old(nodes) && primitives == old(primitives)
      ensures instances == old(instances) && instanceEntries == old(instanceEntries)
    {
      ghost var k := |entries|;
      entries := entries + [Entry(WrapU32(|nodes|), WrapU32(|primitives|), WrapU32(|vertices|))];
      added := added + [Growth(0, 0, count)];
      assert added[..k] == old(added);
      forall k' | 0 <= k' < k ensures added[..k'] == old(added)[..k'] {
        assert added[..k'] == added[..k][..k'];
      }
      start := |vertices|;
      vertices := vertices + seq(count, _ => DefaultVertex);
    }

    /** Overwrites the vertices from `start` on with `run`, which has as many
        vertices as it replaces. */
    method ReplaceRun(start: nat, run: seq<Vertex>)
      requires Valid() && start <= |vertices| && |run| == |vertices| - start
      modifies this`vertices
      ensures Valid()
      ensures vertices == old(vertices)[..start] + run
    {
      vertices := vertices[..start] + run;
    }

    /** Appends one mesh's encoded hierarchy and counts it in the growth of
        the last call. */
    method AppendEncoded(enc: Encoded)
      requires Valid() && |added| > 0 && added[|added| - 1].nodes == 0 && added[|added| - 1].primitives == 0
      modifies this
      ensures Valid()
      ensures nodes == old(nodes) + enc.nodes && primitives == old(primitives) + enc.primitives
      ensures added == old(added)[..|old(added)| - 1] + [Growth(|enc.nodes|, |enc.primitives|, old(added)[|old(added)| - 1].vertices)]
      ensures entries == old(entries) && vertices == old(vertices)
      ensures instances == old(instances) && instanceEntries == old(instanceEntries)
    {
      ghost var n := |added| - 1;
      ghost var last := added[n];
      assert added[..n] + [last] == added;
      nodes := nodes + enc.nodes;
      primitives := primitives + enc.primitives;
      added := added[..n] + [Growth(|enc.nodes|, |enc.primitives|, last.vertices)];
      forall k | 0 <= k < |entries| ensures added[..k] == old(added)[..k] {
      }
      assert added[..n] == old(added)[..n];
    }

    /** `add_bvh`: appends an unindexed mesh. */
    method AddBvh(mesh: MeshDescriptor, build: seq<Triangle> -> BuilderBvh) returns (r: Outcome)
      requires Valid()
      modifies this
      ensures Valid()
      // exactly one entry, at the array lengths before the call
      ensures entries == old(entries) + [Entry(WrapU32(|old(nodes)|), WrapU32(|old(primitives)|), WrapU32(|old(vertices)|))]
      ensures |vertices| == |old(vertices)| + |mesh.positions| && vertices[..|old(vertices)|] == old(vertices)
      ensures instances == old(instances)
      ensures r.Completed? <==>
        !UnindexedPanics(mesh) && IndicesInRange(build(Triangles(mesh.positions)).primitiveIndices, |mesh.positions| / 3)
      ensures r.Completed? ==>
        && vertices == old(vertices) + UnindexedRun(mesh)
        && nodes == old(nodes) + EncodeNodes(build(Triangles(mesh.positions)).nodes)
        && primitives == old(primitives) + EncodePrimitives(Triangles(mesh.positions), build(Triangles(mesh.positions)).primitiveIndices)
        && added == old(added) + [Growth(|build(Triangles(mesh.positions)).nodes|, |build(Triangles(mesh.positions)).primitiveIndices|, |mesh.positions|)]
      ensures r.Aborted? ==> nodes == old(nodes) && primitives == old(primitives)
      ensures r.Aborted? ==> added == old(added) + [Growth(0, 0, |mesh.positions|)]
      ensures r.Aborted? ==> r.reason == IndexOutOfBounds
    {
      var start := PushEntry(|mesh.positions|);
      var run := vertices[start..];
      r, run := WriteUnindexedRun(mesh, run);
      ReplaceRun(start, run);
      if r.Aborted? {
        return;
      }
      var value := ObvhToTinybvh(mesh.positions, build);
      if value.Panicked? {
        return Aborted(value.reason);
      }
      AppendEncoded(value.value);
    }

    /** `add_bvh_indexed`: appends a mesh read through its index array. The
        vertex run is de-indexed first, and the triangles are cut from it. */
    method AddBvhIndexed(desc: IndexedMeshDescriptor, build: seq<Triangle> -> BuilderBvh) returns (r: Outcome)
      requires Valid()
      modifies this
      ensures Valid()
      ensures entries == old(entries) + [Entry(WrapU32(|old(nodes)|), WrapU32(|old(primitives)|), WrapU32(|old(vertices)|))]
      ensures |vertices| == |old(vertices)| + |desc.indices| && vertices[..|old(vertices)|] == old(vertices)
      ensures instances == old(instances)
      ensures r.Completed? <==>
        !IndexedPanics(desc) && IndicesInRange(build(IndexedTriangles(desc)).primitiveIndices, |desc.indices| / 3)
      ensures r.Completed? ==>
        && vertices == old(vertices) + IndexedRun(desc)
        && nodes == old(nodes) + EncodeNodes(build(IndexedTriangles(desc)).nodes)
        && primitives == old(primitives) + EncodePrimitives(IndexedTriangles(desc), build(IndexedTriangles(desc)).primitiveIndices)
        && added == old(added) + [Growth(|build(IndexedTriangles(desc)).nodes|, |build(IndexedTriangles(desc)).primitiveIndices|, |desc.indices|)]
      ensures r.Aborted? ==> nodes == old(nodes) && primitives == old(primitives)
      ensures r.Aborted? ==> added == old(added) + [Growth(0, 0, |desc.indices|)]
      ensures r.Aborted? ==> r.reason == IndexOutOfBounds
    {
      var start := PushEntry(|desc.indices|);
      var run := vertices[start..];
      r, run := WriteIndexedRun(desc, run);
      ReplaceRun(start, run);
      if r.Aborted? {
        return;
      }
      var positions := RunPositions(vertices[start..]);
      var value := ObvhToTinybvh(positions, build);
      if value.Panicked? {
        return Aborted(value.reason);
      }
      AppendEncoded(value.value);
    }

    /** `add_instance`: places a copy of entry `bvhIndex`. `inverse` stands
        for the matrix inverse of the math library. */
    method AddInstance(bvhIndex: u32, modelToWorld: Mat4, material: u32, inverse: Mat4 -> Mat4) returns (r: Outcome)
      requires Valid()
      modifies this
      ensures Valid()
      ensures r.Aborted? <==> bvhIndex >= |entries|
      ensures r.Aborted? ==> r.reason == IndexOutOfBounds && instances == old(instances)
      ensures r.Completed? ==> instances == old(instances) + [Instance(
        modelToWorld, inverse(modelToWorld), material,
        entries[bvhIndex].node, entries[bvhIndex].vertex, entries[bvhIndex].primitive)]
      ensures entries == old(entries) && nodes == old(nodes) && primitives == old(primitives) && vertices == old(vertices)
      ensures added == old(added)
    {
      if bvhIndex >= |entries| {
        return Aborted(IndexOutOfBounds);
      }
      var entry := entries[bvhIndex];
      instances := instances + [Instance(
        modelToWorld, inverse(modelToWorld), material,
        entry.node, entry.vertex, entry.primitive)];
      instanceEntries := instanceEntries + [bvhIndex];
      r := Completed;
    }
  }

  /** Consecutive entries differ by what the earlier mesh appended (modulo
      2^32, the width of the offsets): entry `k`'s offsets are the
      cumulative sizes of meshes `0..k`. */
  lemma EntryOffsetsAccumulate(b: BLASArray, k: nat)
    requires b.Valid() && k + 1 < |b.entries|
    ensures b.entries[k + 1].node == WrapU32(b.entries[k].node + b.added[k].nodes)
    ensures b.entries[k + 1].primitive == WrapU32(b.entries[k].primitive + b.added[k].primitives)
    ensures b.entries[k + 1].vertex == WrapU32(b.entries[k].vertex + b.added[k].vertices)
  {
    var before := Total(b.added[..k]);
    TotalSnoc(b.added, k);
    assert b.entries[k] == EntryFor(before);
    assert b.entries[k + 1] == EntryFor(Plus(before, b.added[k]));
    EntryStep(before, b.added[k]);
  }

  /** The growth after `k + 1` calls is the growth after `k` plus call `k`'s. */
  lemma TotalSnoc(gs: seq<Growth>, k: nat)
    requires k < |gs|
    ensures Total(gs[..k + 1]) == Plus(Total(gs[..k]), gs[k])
  {
    assert gs[..k + 1][..k] == gs[..k];
  }

  /** Recording the sum of two growths is recording the first and adding
      the second modulo 2^32. */
  lemma EntryStep(before: Growth, g: Growth)
    ensures EntryFor(Plus(before, g)).node == WrapU32(EntryFor(before).node + g.nodes)
    ensures EntryFor(Plus(before, g)).primitive == WrapU32(EntryFor(before).primitive + g.primitives)
    ensures EntryFor(Plus(before, g)).vertex == WrapU32(EntryFor(before).vertex + g.vertices)
  {
    ModAddCongruence(before.nodes, g.nodes);
    ModAddCongruence(before.primitives, g.primitives);
    ModAddCongruence(before.vertices, g.vertices);
  }

  lemma ModAddCongruence(a: nat, d: nat)
    ensures (a % U32_MODULUS + d) % U32_MODULUS == (a + d) % U32_MODULUS
  {
  }

  /** Every entry's unwrapped offsets lie within the arrays: an entry never
      points past the data appended so far. */
  lemma EntriesWithinArrays(b: BLASArray, k: nat)
    requires b.Valid() && k < |b.entries|
    ensures Total(b.added[..k]).nodes <= |b.nodes|
    ensures Total(b.added[..k]).primitives <= |b.primitives|
    ensures Total(b.added[..k]).vertices <= |b.vertices|
    ensures b.entries[k] == EntryFor(Total(b.added[..k]))
  {
    TotalPrefixMonotone(b.added, k, |b.added|);
    assert b.added[..|b.added|] == b.added;
  }
}
