/**
 The scene of `src/scene.c`: a list of objects, each a loaded mesh with a
 material, plus the environment light, and the flattening of every object's
 mesh into the single vertex and index buffer that `trimesh_new` consumes.

 Loading an `.obj` file is outside the model: the mesh that `load_obj`
 returns is passed in. The C buffers are `realloc`ed arrays of
 `object_count` entries; here they are sequences, and the count is kept
 equal to their lengths.
 */
module Scene {
  import opened Geometry
  import Envlight
  import Trimesh
  import Seqs

  /** `Material`; the trailing padding word is not modelled. */
  datatype Material = Material(albedo: Vec3)

  /** `ObjMesh` as the loader fills it: `vertex_count` positions and normals
      and `index_count` indices (the C field is spelled `indicies`). The UV
      buffer is never read by the code modelled here. */
  datatype ObjMesh = ObjMesh(positions: seq<Vec3>, normals: seq<Vec3>, indices: seq<nat>)

  function VertexCount(m: ObjMesh): nat { |m.positions| }
  function IndexCount(m: ObjMesh): nat { |m.indices| }

  /** There is a normal for every position. */
  predicate WellFormedMesh(m: ObjMesh) {
    |m.normals| == |m.positions|
  }

  /** Every index names one of the mesh's own vertices. */
  predicate IndicesInRange(m: ObjMesh) {
    forall j | 0 <= j < |m.indices| :: m.indices[j] < |m.positions|
  }

  predicate AllWellFormed(meshes: seq<ObjMesh>) {
    forall i | 0 <= i < |meshes| :: WellFormedMesh(meshes[i])
  }

  predicate AllInRange(meshes: seq<ObjMesh>) {
    forall i | 0 <= i < |meshes| :: IndicesInRange(meshes[i])
  }

  datatype Scene = Scene(
    objectCount: nat,
    materials: seq<Material>,
    meshes: seq<ObjMesh>,
    envlight: Envlight.EnvironmentLight)

  /** Both arrays hold exactly `object_count` entries. */
  predicate Consistent(s: Scene) {
    |s.materials| == s.objectCount && |s.meshes| == s.objectCount
  }

  // ---------------------------------------------------------------------
  // scene_new, scene_add_object (scene.c:9-29)
  // ---------------------------------------------------------------------

  /** `scene_new`: no objects, and the blank sky as environment light,
      whose every column sample is 0.5. */
  function SceneNew(sinTheta: seq<real>): (s: Scene)
    requires |sinTheta| == Envlight.BlankSkyResolution && forall v | 0 <= v < |sinTheta| :: sinTheta[v] > 0.0
    ensures Consistent(s) && s.objectCount == 0 && s.materials == [] && s.meshes == []
    ensures s.envlight.width == 1 && s.envlight.height == Envlight.BlankSkyResolution
    ensures s.envlight.cdfConditionalInverse == seq(Envlight.BlankSkyResolution, v => [0.5])
  {
    Scene(0, [], [], Envlight.BlankSky(sinTheta))
  }

  /** `scene_add_object` with the mesh `load_obj` returned: the mesh and
      the material go to position `object_count`, the count grows by one,
      and nothing else changes. */
  function AddObject(s: Scene, mesh: ObjMesh, material: Material): (t: Scene)
    requires Consistent(s)
    ensures Consistent(t) && t.objectCount == s.objectCount + 1
    ensures t.meshes[s.objectCount] == mesh && t.materials[s.objectCount] == material
    ensures t.meshes[..s.objectCount] == s.meshes && t.materials[..s.objectCount] == s.materials
    ensures t.envlight == s.envlight
  {
    Scene(s.objectCount + 1, s.materials + [material], s.meshes + [mesh], s.envlight)
  }

  /** Adding a list of objects one after the other. */
  function AddObjects(s: Scene, objects: seq<(ObjMesh, Material)>): (t: Scene)
    requires Consistent(s)
    ensures Consistent(t)
    decreases |objects|
  {
    if |objects| == 0 then s
    else AddObject(AddObjects(s, objects[..|objects| - 1]), objects[|objects| - 1].0, objects[|objects| - 1].1)
  }

  /** A scene built by adding objects to a fresh scene holds exactly those
      objects, in the order they were added. */
  lemma {:induction false} AddObjectsInOrder(s: Scene, objects: seq<(ObjMesh, Material)>)
    requires Consistent(s) && s.objectCount == 0
    ensures AddObjects(s, objects).objectCount == |objects|
    ensures forall i | 0 <= i < |objects| ::
              AddObjects(s, objects).meshes[i] == objects[i].0 && AddObjects(s, objects).materials[i] == objects[i].1
    ensures AddObjects(s, objects).envlight == s.envlight
    decreases |objects|
  {
    if |objects| > 0 {
      var before := objects[..|objects| - 1];
      AddObjectsInOrder(s, before);
      var t := AddObjects(s, before);
      var u := AddObject(t, objects[|objects| - 1].0, objects[|objects| - 1].1);
      forall i | 0 <= i < |objects|
        ensures u.meshes[i] == objects[i].0 && u.materials[i] == objects[i].1
      {
        if i < |before| {
          assert u.meshes[i] == u.meshes[..t.objectCount][i];
          assert u.materials[i] == u.materials[..t.objectCount][i];
          assert before[i] == objects[i];
        }
      }
    }
  }

  // ---------------------------------------------------------------------
  // scene_create_unified_mesh (scene.c:36-63)
  // ---------------------------------------------------------------------

  /** The number of vertices of meshes `0..i`, where mesh `i` starts in the
      unified vertex buffer. */
  function VertexOffset(meshes: seq<ObjMesh>, i: nat): nat
    requires i <= |meshes|
  {
    if i == 0 then 0 else VertexOffset(meshes, i - 1) + VertexCount(meshes[i - 1])
  }

  /** The number of indices of meshes `0..i`, where mesh `i` starts in the
      unified index buffer. */
  function IndexOffset(meshes: seq<ObjMesh>, i: nat): nat
    requires i <= |meshes|
  {
    if i == 0 then 0 else IndexOffset(meshes, i - 1) + IndexCount(meshes[i - 1])
  }

  /** `total_vertices` and `total_indices`. */
  function VertexTotal(meshes: seq<ObjMesh>): nat { VertexOffset(meshes, |meshes|) }
  function IndexTotal(meshes: seq<ObjMesh>): nat { IndexOffset(meshes, |meshes|) }

  /** Mesh `i`'s indices moved past the vertices of the meshes before it. */
  function Rebased(indices: seq<nat>, offset: nat): (r: seq<nat>)
    ensures |r| == |indices|
    ensures forall j | 0 <= j < |indices| :: r[j] == indices[j] + offset
  {
    seq(|indices|, j requires 0 <= j < |indices| => indices[j] + offset)
  }

  /** Mesh `i`'s vertices tagged with their object. */
  function Tagged(m: ObjMesh, i: nat): (vs: seq<Trimesh.Vertex>)
    requires WellFormedMesh(m)
    ensures |vs| == VertexCount(m)
    ensures forall j | 0 <= j < |vs| :: vs[j] == Trimesh.Vertex(m.positions[j], i, m.normals[j])
  {
    seq(|m.positions|, j requires 0 <= j < |m.positions| => Trimesh.Vertex(m.positions[j], i, m.normals[j]))
  }

  /** The unified index buffer after the first `k` meshes. */
  function UnifiedIndices(meshes: seq<ObjMesh>, k: nat): (r: seq<nat>)
    requires k <= |meshes|
    ensures |r| == IndexOffset(meshes, k)
  {
    if k == 0 then []
    else UnifiedIndices(meshes, k - 1) + Rebased(meshes[k - 1].indices, VertexOffset(meshes, k - 1))
  }

  /** The unified vertex buffer after the first `k` meshes. */
  function UnifiedVertices(meshes: seq<ObjMesh>, k: nat): (r: seq<Trimesh.Vertex>)
    requires k <= |meshes| && AllWellFormed(meshes)
    ensures |r| == VertexOffset(meshes, k)
  {
    if k == 0 then []
    else UnifiedVertices(meshes, k - 1) + Tagged(meshes[k - 1], k - 1)
  }

  /** Offsets only grow from one mesh to the next. */
  lemma {:induction false} OffsetsGrow(meshes: seq<ObjMesh>, i: nat, k: nat)
    requires i <= k <= |meshes|
    ensures VertexOffset(meshes, i) <= VertexOffset(meshes, k)
    ensures IndexOffset(meshes, i) <= IndexOffset(meshes, k)
    decreases k
  {
    if i < k {
      OffsetsGrow(meshes, i, k - 1);
    }
  }

  /** Later meshes only append: the buffers after `i` meshes are prefixes of
      the buffers after `k >= i` meshes. */
  lemma {:induction false} UnifiedPrefix(meshes: seq<ObjMesh>, i: nat, k: nat)
    requires i <= k <= |meshes| && AllWellFormed(meshes)
    ensures IndexOffset(meshes, i) <= IndexOffset(meshes, k)
    ensures UnifiedIndices(meshes, k)[..IndexOffset(meshes, i)] == UnifiedIndices(meshes, i)
    ensures VertexOffset(meshes, i) <= VertexOffset(meshes, k)
    ensures UnifiedVertices(meshes, k)[..VertexOffset(meshes, i)] == UnifiedVertices(meshes, i)
    decreases k
  {
    if i < k {
      UnifiedPrefix(meshes, i, k - 1);
      var a := UnifiedIndices(meshes, k - 1);
      var b := UnifiedVertices(meshes, k - 1);
      assert UnifiedIndices(meshes, k)[..|a|] == a;
      assert UnifiedVertices(meshes, k)[..|b|] == b;
      Seqs.PrefixTrans(UnifiedIndices(meshes, i), a, UnifiedIndices(meshes, k));
      Seqs.PrefixTrans(UnifiedVertices(meshes, i), b, UnifiedVertices(meshes, k));
    } else {
      assert UnifiedIndices(meshes, k)[..IndexOffset(meshes, i)] == UnifiedIndices(meshes, k);
      assert UnifiedVertices(meshes, k)[..VertexOffset(meshes, i)] == UnifiedVertices(meshes, k);
    }
  }

  /** Index `j` of mesh `i` lands at position `IndexOffset(i) + j` of the
      unified index buffer, moved up by the vertex count of all earlier
      meshes. */
  lemma UnifiedIndexAt(meshes: seq<ObjMesh>, i: nat, j: nat)
    requires AllWellFormed(meshes) && i < |meshes| && j < IndexCount(meshes[i])
    ensures IndexOffset(meshes, i) + j < IndexTotal(meshes)
    ensures UnifiedIndices(meshes, |meshes|)[IndexOffset(meshes, i) + j] == meshes[i].indices[j] + VertexOffset(meshes, i)
    ensures IndicesInRange(meshes[i]) ==> UnifiedIndices(meshes, |meshes|)[IndexOffset(meshes, i) + j] < VertexOffset(meshes, i + 1)
  {
    UnifiedPrefix(meshes, i + 1, |meshes|);
    var p := IndexOffset(meshes, i) + j;
    assert UnifiedIndices(meshes, |meshes|)[p] == UnifiedIndices(meshes, |meshes|)[..IndexOffset(meshes, i + 1)][p];
  }

  /** Vertex `j` of mesh `i` lands at position `VertexOffset(i) + j` of the
      unified vertex buffer, with its position and normal and with object
      index `i`. */
  lemma UnifiedVertexAt(meshes: seq<ObjMesh>, i: nat, j: nat)
    requires AllWellFormed(meshes) && i < |meshes| && j < VertexCount(meshes[i])
    ensures VertexOffset(meshes, i) + j < VertexTotal(meshes)
    ensures UnifiedVertices(meshes, |meshes|)[VertexOffset(meshes, i) + j]
              == Trimesh.Vertex(meshes[i].positions[j], i, meshes[i].normals[j])
  {
    UnifiedPrefix(meshes, i + 1, |meshes|);
    var p := VertexOffset(meshes, i) + j;
    assert UnifiedVertices(meshes, |meshes|)[p] == UnifiedVertices(meshes, |meshes|)[..VertexOffset(meshes, i + 1)][p];
  }

  /** Every position of the unified index buffer comes from some copied
      entry: index `j` of mesh `i`, with `p = IndexOffset(i) + j`. */
  lemma {:induction false} IndexOrigin(meshes: seq<ObjMesh>, k: nat, p: nat) returns (i: nat, j: nat)
    requires k <= |meshes| && p < IndexOffset(meshes, k)
    ensures i < k && j < IndexCount(meshes[i]) && p == IndexOffset(meshes, i) + j
    decreases k
  {
    if p < IndexOffset(meshes, k - 1) {
      i, j := IndexOrigin(meshes, k - 1, p);
    } else {
      i, j := k - 1, p - IndexOffset(meshes, k - 1);
    }
  }

  /** Every position of the unified vertex buffer comes from some copied
      entry: vertex `j` of mesh `i`, with `p = VertexOffset(i) + j`. */
  lemma {:induction false} VertexOrigin(meshes: seq<ObjMesh>, k: nat, p: nat) returns (i: nat, j: nat)
    requires k <= |meshes| && p < VertexOffset(meshes, k)
    ensures i < k && j < VertexCount(meshes[i]) && p == VertexOffset(meshes, i) + j
    decreases k
  {
    if p < VertexOffset(meshes, k - 1) {
      i, j := VertexOrigin(meshes, k - 1, p);
    } else {
      i, j := k - 1, p - VertexOffset(meshes, k - 1);
    }
  }

  /** A unified vertex carries object index `i` exactly when it lies in mesh
      `i`'s stretch `[VertexOffset(i), VertexOffset(i + 1))`: the buffer is
      in mesh order, each mesh's vertices in their own order. */
  lemma ObjectIndexStretch(meshes: seq<ObjMesh>, p: nat, i: nat)
    requires AllWellFormed(meshes) && p < VertexTotal(meshes) && i < |meshes|
    ensures (UnifiedVertices(meshes, |meshes|)[p].objectIndex == i)
              == (VertexOffset(meshes, i) <= p < VertexOffset(meshes, i + 1))
  {
    var i', j := VertexOrigin(meshes, |meshes|, p);
    UnifiedVertexAt(meshes, i', j);
    if i' < i {
      OffsetsGrow(meshes, i' + 1, i);
    } else if i < i' {
      OffsetsGrow(meshes, i + 1, i');
    }
  }

  /** When every mesh's indices name its own vertices, every unified index
      names a unified vertex, which is what `trimesh_new` reads. */
  lemma UnifiedIndicesValid(meshes: seq<ObjMesh>)
    requires AllWellFormed(meshes) && AllInRange(meshes)
    ensures forall p | 0 <= p < IndexTotal(meshes) :: UnifiedIndices(meshes, |meshes|)[p] < VertexTotal(meshes)
  {
    forall p | 0 <= p < IndexTotal(meshes)
      ensures UnifiedIndices(meshes, |meshes|)[p] < VertexTotal(meshes)
    {
      UnifiedIndexBelow(meshes, p);
    }
  }

  lemma UnifiedIndexBelow(meshes: seq<ObjMesh>, p: nat)
    requires AllWellFormed(meshes) && AllInRange(meshes)
    requires p < IndexTotal(meshes)
    ensures UnifiedIndices(meshes, |meshes|)[p] < VertexTotal(meshes)
  {
    var i, j := IndexOrigin(meshes, |meshes|, p);
    assert IndicesInRange(meshes[i]);
    UnifiedIndexAt(meshes, i, j);
    var bound := VertexOffset(meshes, i + 1);
    OffsetsGrow(meshes, i + 1, |meshes|);
    assert bound <= VertexTotal(meshes);
  }

  /** The inner index loop of `scene_create_unified_mesh`: mesh `m`'s indices,
      each moved up by `vertexOffset`. */
  method CopyIndices(m: ObjMesh, vertexOffset: nat) returns (out: seq<nat>)
    ensures out == Rebased(m.indices, vertexOffset)
  {
    out := [];
    for j := 0 to IndexCount(m)
      invariant out == Rebased(m.indices[..j], vertexOffset)
    {
      out := out + [m.indices[j] + vertexOffset];
    }
    assert m.indices[..IndexCount(m)] == m.indices;
  }

  /** The inner vertex loop of `scene_create_unified_mesh`: mesh `m`'s
      positions and normals paired up and tagged with object index `i`. */
  method CopyVertices(m: ObjMesh, i: nat) returns (out: seq<Trimesh.Vertex>)
    requires WellFormedMesh(m)
    ensures out == Tagged(m, i)
  {
    out := [];
    for j := 0 to VertexCount(m)
      invariant out == Tagged(m, i)[..j]
    {
      out := out + [Trimesh.Vertex(m.positions[j], i, m.normals[j])];
    }
  }

  /** `scene_create_unified_mesh`: sum the counts, copy every mesh's indices
      (rebased) and vertices (tagged) into one pair of buffers, and build the
      mesh and its BVH from them. The buffers need at least one whole
      triangle, as `trimesh_new` does, and every mesh's indices must name
      its own vertices. */
  method CreateUnifiedMesh(s: Scene) returns (mesh: Trimesh.TriangleMesh)
    requires Consistent(s) && AllWellFormed(s.meshes)
    requires AllInRange(s.meshes)
    requires IndexTotal(s.meshes) / 3 >= 1
    ensures mesh.vertexCount == VertexTotal(s.meshes) && mesh.indexCount == IndexTotal(s.meshes)
    ensures mesh.vertices == UnifiedVertices(s.meshes, |s.meshes|)
    ensures mesh.indices == UnifiedIndices(s.meshes, |s.meshes|)
    ensures mesh.bvhNodeCount == |mesh.bvhNodes| == 2 * (IndexTotal(s.meshes) / 3) - 1
    ensures forall t: nat ::
              multiset(Trimesh.LeafTriangles(mesh.bvhNodes))[t] == if t < IndexTotal(s.meshes) / 3 then 1 else 0
  {
    var meshes := s.meshes;
    var totalVertices, totalIndices := 0, 0;
    for i := 0 to s.objectCount
      invariant totalVertices == VertexOffset(meshes, i) && totalIndices == IndexOffset(meshes, i)
    {
      totalIndices := totalIndices + IndexCount(meshes[i]);
      totalVertices := totalVertices + VertexCount(meshes[i]);
    }

    var vertices: seq<Trimesh.Vertex> := [];
    var indices: seq<nat> := [];
    var vertexOffset := 0;
    for i := 0 to s.objectCount
      invariant vertexOffset == VertexOffset(meshes, i)
      invariant vertices == UnifiedVertices(meshes, i) && indices == UnifiedIndices(meshes, i)
    {
      var rebased := CopyIndices(meshes[i], vertexOffset);
      indices := indices + rebased;
      var tagged := CopyVertices(meshes[i], i);
      vertices := vertices + tagged;
      vertexOffset := vertexOffset + VertexCount(meshes[i]);
    }

    UnifiedIndicesValid(meshes);
    mesh := Trimesh.TrimeshNew(vertices, indices);
  }
}
