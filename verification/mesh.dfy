/**
 The in-memory mesh shared by the loader and the checkers: seven parallel
 arrays of positions, texture coordinates, colours, normals and three index
 arrays. Coordinates are exact reals; face `f` is made of the three corners
 `3f`, `3f+1`, `3f+2` of the index arrays.
 */
module MeshModel {

  datatype Vec2 = Vec2(x: real, y: real)
  datatype Vec3 = Vec3(x: real, y: real, z: real)

  datatype Mesh = Mesh(
    vertices: seq<Vec3>,
    uvs: seq<Vec2>,
    colors: seq<Vec3>,
    normals: seq<Vec3>,
    vertexIndices: seq<nat>,
    uvIndices: seq<nat>,
    normalIndices: seq<nat>)

  /** `vertex_indices.size() / 3`: the face count every checker uses. */
  function FaceCount(m: Mesh): nat {
    |m.vertexIndices| / 3
  }

  /** Every corner of every face has a UV index, and every such index names
      a stored UV; the UV checker reads `uvs[uv_indices[3f + k]]` without
      bounds checks, so this is what its callers must provide. */
  predicate UvIndexed(m: Mesh) {
    && |m.uvIndices| >= 3 * FaceCount(m)
    && forall i :: 0 <= i < 3 * FaceCount(m) ==> m.uvIndices[i] < |m.uvs|
  }

  /** The UV of corner `k` of face `f`; a fixed value when the corner is not
      indexed, which `UvIndexed` rules out wherever it is read. */
  function CornerUv(m: Mesh, f: nat, k: nat): Vec2 {
    var i := 3 * f + k;
    if i < |m.uvIndices| && m.uvIndices[i] < |m.uvs| then m.uvs[m.uvIndices[i]]
    else Vec2(0.0, 0.0)
  }
}
