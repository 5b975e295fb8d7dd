/**
 `ObjLoader::load_indexed` (src/ObjLoader.cpp): turn a parsed OBJ file into
 a flat triangle soup. Every face corner contributes its own position,
 normal and UV, in shape, face, corner order, and all three index arrays
 become the identity. The parse itself (`tinyobj::LoadObj`) is taken as
 given: its outcome is a parameter, `None` when it fails. `glm::normalize`
 is a parameter too; the cross product is computed exactly.
 */
module ObjLoader {
  import opened Common
  import opened MeshModel
  import opened UvChecker
  import opened UvGeometry
  import opened UvOverlap

  /** `tinyobj::index_t`: positions into the attribute arrays, negative when
      the corner has no normal or no texture coordinate. */
  datatype ObjIndex = ObjIndex(vertexIndex: int, normalIndex: int, texcoordIndex: int)

  /** The mesh part of `tinyobj::shape_t`: corner count per face, and the
      corners. */
  datatype ObjShape = ObjShape(numFaceVertices: seq<nat>, indices: seq<ObjIndex>)

  /** `tinyobj::attrib_t`: flat coordinate arrays, three reals per position
      or normal and two per texture coordinate. */
  datatype Attrib = Attrib(vertices: seq<real>, normals: seq<real>, texcoords: seq<real>)

  datatype ObjFile = ObjFile(attrib: Attrib, shapes: seq<ObjShape>)

  /** Face `f` reads the corners `f * fv + v` for `v < fv`, `fv` being its own
      corner count; all of them must exist. */
  predicate FacesInRange(s: ObjShape) {
    forall f :: 0 <= f < |s.numFaceVertices| ==> (f + 1) * s.numFaceVertices[f] <= |s.indices|
  }

  lemma CornerInRange(s: ObjShape, f: nat, v: nat)
    requires FacesInRange(s) && f < |s.numFaceVertices| && v < s.numFaceVertices[f]
    ensures f * s.numFaceVertices[f] + v < |s.indices|
  {
    assert (f + 1) * s.numFaceVertices[f] == f * s.numFaceVertices[f] + s.numFaceVertices[f];
  }

  /** The corners the loader reads for face `f`, as written:
      `indices[f * fv + v]`. */
  function FaceCorners(s: ObjShape, f: nat): (cs: seq<ObjIndex>)
    requires FacesInRange(s) && f < |s.numFaceVertices|
    ensures |cs| == s.numFaceVertices[f]
  {
    var fv := s.numFaceVertices[f];
    seq(fv, v requires 0 <= v < fv =>
      CornerInRange(s, f, v);
      s.indices[f * fv + v])
  }

  /** The corners read for the first `n` faces of a shape. */
  function ShapeCorners(s: ObjShape, n: nat): seq<ObjIndex>
    requires FacesInRange(s) && n <= |s.numFaceVertices|
  {
    if n == 0 then [] else ShapeCorners(s, n - 1) + FaceCorners(s, n - 1)
  }

  /** The corners read for all faces of all shapes, in loop order. */
  function AllCorners(shapes: seq<ObjShape>): seq<ObjIndex>
    requires forall k :: 0 <= k < |shapes| ==> FacesInRange(shapes[k])
  {
    if shapes == [] then []
    else
      var k := |shapes| - 1;
      AllCorners(shapes[..k]) + ShapeCorners(shapes[k], |shapes[k].numFaceVertices|)
  }

  /** A corner's attribute reads stay inside the arrays. */
  predicate IndexOk(a: Attrib, c: ObjIndex) {
    && 0 <= c.vertexIndex && 3 * c.vertexIndex + 2 < |a.vertices|
    && (c.normalIndex >= 0 ==> 3 * c.normalIndex + 2 < |a.normals|)
    && (c.texcoordIndex >= 0 ==> 2 * c.texcoordIndex + 1 < |a.texcoords|)
  }

  /** Every corner the loader reads exists and has valid attribute indices;
      the source indexes without checks, so this is what it relies on. */
  predicate WellFormed(file: ObjFile) {
    forall k :: 0 <= k < |file.shapes| ==>
      && FacesInRange(file.shapes[k])
      && forall f, v :: 0 <= f < |file.shapes[k].numFaceVertices| && 0 <= v < file.shapes[k].numFaceVertices[f] ==>
           IndexOk(file.attrib, FaceCorners(file.shapes[k], f)[v])
  }

  /** The position of a corner. */
  function Position(a: Attrib, c: ObjIndex): Vec3 {
    var i := 3 * c.vertexIndex;
    if 0 <= i && i + 2 < |a.vertices| then Vec3(a.vertices[i], a.vertices[i + 1], a.vertices[i + 2])
    else Vec3(0.0, 0.0, 0.0)
  }

  /** The normal of a corner, the zero vector when it has none. */
  function CornerNormal(a: Attrib, c: ObjIndex): Vec3 {
    var i := 3 * c.normalIndex;
    if 0 <= i && i + 2 < |a.normals| then Vec3(a.normals[i], a.normals[i + 1], a.normals[i + 2])
    else Vec3(0.0, 0.0, 0.0)
  }

  /** The texture coordinate of a corner, (0, 0) when it has none. */
  function TexCoord(a: Attrib, c: ObjIndex): Vec2 {
    var i := 2 * c.texcoordIndex;
    if 0 <= i && i + 1 < |a.texcoords| then Vec2(a.texcoords[i], a.texcoords[i + 1])
    else Vec2(0.0, 0.0)
  }

  function Sub(p: Vec3, q: Vec3): Vec3 {
    Vec3(p.x - q.x, p.y - q.y, p.z - q.z)
  }

  function Cross(p: Vec3, q: Vec3): Vec3 {
    Vec3(p.y * q.z - p.z * q.y, p.z * q.x - p.x * q.z, p.x * q.y - p.y * q.x)
  }

  function Dot(p: Vec3, q: Vec3): real {
    p.x * q.x + p.y * q.y + p.z * q.z
  }

  /** The flat normal at corner `c` before normalisation: the cross
      product of the two edges leaving the first corner `b` of its triangle,
      where `b` is `c` rounded down to a multiple of three. */
  function TriangleCross(vs: seq<Vec3>, c: nat): Vec3
    requires c - c % 3 + 2 < |vs|
  {
    var b := c - c % 3;
    Cross(Sub(vs[b + 1], vs[b]), Sub(vs[b + 2], vs[b]))
  }

  /** The un-normalised flat normal is perpendicular to both edges of the
      corner's triangle, hence to the face. */
  lemma FlatNormalIsPerpendicular(vs: seq<Vec3>, c: nat)
    requires c - c % 3 + 2 < |vs|
    ensures var b := c - c % 3;
      && Dot(TriangleCross(vs, c), Sub(vs[b + 1], vs[b])) == 0.0
      && Dot(TriangleCross(vs, c), Sub(vs[b + 2], vs[b])) == 0.0
  {
  }

  /** The flat normal at corner `c` of a soup: the normalised
      `TriangleCross`. A trailing partial triangle has none and gets zero;
      it never arises where this is used, since soups have `3n` corners. */
  function FaceNormal(normalize: Vec3 -> Vec3, vs: seq<Vec3>, c: nat): Vec3 {
    if c - c % 3 + 2 < |vs| then normalize(TriangleCross(vs, c))
    else Vec3(0.0, 0.0, 0.0)
  }

  /** The arrays filled so far hold, position by position, the attributes
      of the corners read so far. */
  predicate Loaded(a: Attrib, done: seq<ObjIndex>, vertices: seq<Vec3>, normals: seq<Vec3>, uvs: seq<Vec2>) {
    && |vertices| == |done| && |normals| == |done| && |uvs| == |done|
    && forall j :: 0 <= j < |done| ==>
         && vertices[j] == Position(a, done[j])
         && normals[j] == CornerNormal(a, done[j])
         && uvs[j] == TexCoord(a, done[j])
  }

  /** The innermost loop: the corners of face `f`, one of each attribute per
      corner. */
  method AppendFace(a: Attrib, s: ObjShape, f: nat, vertices: seq<Vec3>, normals: seq<Vec3>, uvs: seq<Vec2>,
                    ghost done: seq<ObjIndex>)
    returns (vertices': seq<Vec3>, normals': seq<Vec3>, uvs': seq<Vec2>)
    requires FacesInRange(s) && f < |s.numFaceVertices|
    requires forall v :: 0 <= v < s.numFaceVertices[f] ==> IndexOk(a, FaceCorners(s, f)[v])
    requires Loaded(a, done, vertices, normals, uvs)
    ensures Loaded(a, done + FaceCorners(s, f), vertices', normals', uvs')
  {
    var fv := s.numFaceVertices[f];
    vertices', normals', uvs' := vertices, normals, uvs;
    var v := 0;
    while v < fv
      invariant 0 <= v <= fv
      invariant Loaded(a, done + FaceCorners(s, f)[..v], vertices', normals', uvs')
    {
      CornerInRange(s, f, v);
      var idx := s.indices[f * fv + v];
      assert idx == FaceCorners(s, f)[v];
      vertices' := vertices' + [Vec3(a.vertices[3 * idx.vertexIndex + 0],
                                     a.vertices[3 * idx.vertexIndex + 1],
                                     a.vertices[3 * idx.vertexIndex + 2])];
      if idx.normalIndex >= 0 {
        normals' := normals' + [Vec3(a.normals[3 * idx.normalIndex + 0],
                                     a.normals[3 * idx.normalIndex + 1],
                                     a.normals[3 * idx.normalIndex + 2])];
      } else {
        normals' := normals' + [Vec3(0.0, 0.0, 0.0)];
      }
      if idx.texcoordIndex >= 0 {
        uvs' := uvs' + [Vec2(a.texcoords[2 * idx.texcoordIndex + 0],
                             a.texcoords[2 * idx.texcoordIndex + 1])];
      } else {
        uvs' := uvs' + [Vec2(0.0, 0.0)];
      }
      assert done + FaceCorners(s, f)[..v + 1] == (done + FaceCorners(s, f)[..v]) + [idx];
      v := v + 1;
    }
    assert FaceCorners(s, f)[..fv] == FaceCorners(s, f);
  }

  /** The face loop of one shape. */
  method AppendShape(a: Attrib, s: ObjShape, vertices: seq<Vec3>, normals: seq<Vec3>, uvs: seq<Vec2>,
                     ghost done: seq<ObjIndex>)
    returns (vertices': seq<Vec3>, normals': seq<Vec3>, uvs': seq<Vec2>)
    requires FacesInRange(s)
    requires forall f, v :: 0 <= f < |s.numFaceVertices| && 0 <= v < s.numFaceVertices[f] ==> IndexOk(a, FaceCorners(s, f)[v])
    requires Loaded(a, done, vertices, normals, uvs)
    ensures Loaded(a, done + ShapeCorners(s, |s.numFaceVertices|), vertices', normals', uvs')
  {
    vertices', normals', uvs' := vertices, normals, uvs;
    var f := 0;
    while f < |s.numFaceVertices|
      invariant 0 <= f <= |s.numFaceVertices|
      invariant Loaded(a, done + ShapeCorners(s, f), vertices', normals', uvs')
    {
      vertices', normals', uvs' := AppendFace(a, s, f, vertices', normals', uvs', done + ShapeCorners(s, f));
      assert done + ShapeCorners(s, f + 1) == (done + ShapeCorners(s, f)) + FaceCorners(s, f);
      f := f + 1;
    }
  }

  /** The shape loop: every corner of the file, in order. */
  method Flatten(file: ObjFile) returns (vertices: seq<Vec3>, normals: seq<Vec3>, uvs: seq<Vec2>)
    requires WellFormed(file)
    ensures Loaded(file.attrib, AllCorners(file.shapes), vertices, normals, uvs)
  {
    vertices, normals, uvs := [], [], [];
    var k := 0;
    while k < |file.shapes|
      invariant 0 <= k <= |file.shapes|
      invariant Loaded(file.attrib, AllCorners(file.shapes[..k]), vertices, normals, uvs)
    {
      var s := file.shapes[k];
      vertices, normals, uvs := AppendShape(file.attrib, s, vertices, normals, uvs, AllCorners(file.shapes[..k]));
      assert file.shapes[..k + 1][..k] == file.shapes[..k];
      k := k + 1;
    }
    assert file.shapes[..k] == file.shapes;
  }

  /** `vertex_indices[i] = i` for every position. */
  method Identity(n: nat) returns (indices: seq<nat>)
    ensures |indices| == n
    ensures forall i :: 0 <= i < n ==> indices[i] == i
  {
    indices := [];
    while |indices| < n
      invariant |indices| <= n
      invariant forall i :: 0 <= i < |indices| ==> indices[i] == i
    {
      indices := indices + [|indices|];
    }
  }

  lemma SameTriangle(i: nat, j: nat)
    requires i % 3 == 0 && i <= j < i + 3
    ensures j - j % 3 == i
  {
  }

  /** The flat-normal pass: each triangle's three corners get the
      normalised cross product of its two edges from the first corner. */
  method FillFlatNormals(vertices: seq<Vec3>, normals: seq<Vec3>, normalize: Vec3 -> Vec3) returns (filled: seq<Vec3>)
    requires |normals| == |vertices| && |vertices| % 3 == 0
    ensures |filled| == |vertices|
    ensures forall i :: 0 <= i < |vertices| ==> filled[i] == FaceNormal(normalize, vertices, i)
  {
    filled := normals;
    var i := 0;
    while i < |vertices|
      invariant 0 <= i <= |vertices| && i % 3 == 0 && |filled| == |vertices|
      invariant forall j :: 0 <= j < i ==> filled[j] == FaceNormal(normalize, vertices, j)
    {
      var v1 := Sub(vertices[i + 1], vertices[i]);
      var v2 := Sub(vertices[i + 2], vertices[i]);
      var normal := normalize(Cross(v1, v2));
      assert normal == FaceNormal(normalize, vertices, i);
      ghost var before := filled;
      filled := filled[i := normal][i + 1 := normal][i + 2 := normal];
      forall j | 0 <= j < i + 3
        ensures filled[j] == FaceNormal(normalize, vertices, j)
      {
        if j < i {
          assert filled[j] == before[j];
        } else {
          SameTriangle(i, j);
        }
      }
      i := i + 3;
    }
  }

  /** The shape `load_indexed` leaves a mesh in: one position, normal and UV
      per corner, and the identity as all three index arrays. */
  predicate IsFlatSoup(m: Mesh) {
    && |m.uvs| == |m.vertices| && |m.normals| == |m.vertices| && |m.vertexIndices| == |m.vertices|
    && (forall i :: 0 <= i < |m.vertexIndices| ==> m.vertexIndices[i] == i)
    && m.uvIndices == m.vertexIndices && m.normalIndices == m.vertexIndices
  }

  /** `ObjLoader::load_indexed`, from the already parsed file (`None` when
      parsing fails). The six geometry and index arrays are cleared on entry
      and the colours are left as they were. When the file has no normals
      at all, every corner's normal is replaced by its triangle's flat
      normal. */
  method LoadIndexed(previous: Mesh, parsed: Option<ObjFile>, normalize: Vec3 -> Vec3)
    returns (ok: bool, mesh: Mesh)
    requires parsed.Some? ==> WellFormed(parsed.value)
    requires parsed.Some? && |parsed.value.attrib.normals| == 0 ==> |AllCorners(parsed.value.shapes)| % 3 == 0
    ensures ok <==> parsed.Some?
    ensures mesh.colors == previous.colors
    ensures !ok ==> mesh == Mesh([], [], previous.colors, [], [], [], [])
    ensures ok ==> IsFlatSoup(mesh)
    ensures ok ==>
      var a := parsed.value.attrib;
      var cs := AllCorners(parsed.value.shapes);
      && |mesh.vertices| == |cs|
      && forall i :: 0 <= i < |cs| ==>
           && mesh.vertices[i] == Position(a, cs[i])
           && mesh.uvs[i] == TexCoord(a, cs[i])
           && mesh.normals[i] == if |a.normals| == 0 then FaceNormal(normalize, mesh.vertices, i) else CornerNormal(a, cs[i])
  {
    mesh := previous.(vertices := [], uvs := [], normals := [], vertexIndices := [], uvIndices := [], normalIndices := []);
    if parsed.None? {
      return false, mesh;
    }
    var file := parsed.value;
    var vertices, normals, uvs := Flatten(file);
    var indices := Identity(|vertices|);
    if |file.attrib.normals| == 0 {
      normals := FillFlatNormals(vertices, normals, normalize);
    }
    mesh := mesh.(vertices := vertices, uvs := uvs, normals := normals,
                  vertexIndices := indices, uvIndices := indices, normalIndices := indices);
    ok := true;
  }

  /** When tinyobj triangulates (its default), every face has three
      corners, and the `f * fv + v` lookup reads each shape's corners
      exactly in their stored order. */
  lemma {:induction false} TriangulatedShapeReadsInOrder(s: ObjShape, n: nat)
    requires forall f :: 0 <= f < |s.numFaceVertices| ==> s.numFaceVertices[f] == 3
    requires |s.indices| == 3 * |s.numFaceVertices| && n <= |s.numFaceVertices|
    ensures FacesInRange(s)
    ensures ShapeCorners(s, n) == s.indices[..3 * n]
  {
    TriangulatedInRange(s);
    if n > 0 {
      TriangulatedShapeReadsInOrder(s, n - 1);
      TriangleCorners(s, n - 1);
      assert s.indices[..3 * n] == s.indices[..3 * (n - 1)] + s.indices[3 * (n - 1)..3 * n];
    }
  }

  lemma TriangulatedInRange(s: ObjShape)
    requires forall f :: 0 <= f < |s.numFaceVertices| ==> s.numFaceVertices[f] == 3
    requires |s.indices| == 3 * |s.numFaceVertices|
    ensures FacesInRange(s)
  {
    forall f | 0 <= f < |s.numFaceVertices| ensures (f + 1) * s.numFaceVertices[f] <= |s.indices| {
      assert (f + 1) * 3 == 3 * f + 3;
    }
  }

  /** A triangle's corners are three consecutive entries of `indices`. */
  lemma TriangleCorners(s: ObjShape, f: nat)
    requires FacesInRange(s) && f < |s.numFaceVertices| && s.numFaceVertices[f] == 3
    ensures 3 * f + 3 <= |s.indices|
    ensures FaceCorners(s, f) == s.indices[3 * f..3 * f + 3]
  {
    CornerInRange(s, f, 2);
    assert f * 3 == 3 * f;
  }

  /** A loaded mesh has UVs exactly when it has a corner, even when the
      file has no texture coordinates (they default to (0, 0)), and every
      corner's UV index names a stored UV. */
  lemma FlatSoupHasUvs(m: Mesh)
    requires IsFlatSoup(m)
    ensures HasUvs(m) <==> |m.vertices| > 0
    ensures UvIndexed(m)
  {
    if |m.vertices| > 0 {
      assert m.vertexIndices[0] == 0;
    }
  }

  /** A file without texture coordinates loads with every UV at (0, 0)
      (`TexCoord` falls back to it). Every face is then a single point in UV
      space that passes the point-in-triangle test at grid cell 0, so as
      soon as there are two faces, every face counts as overlapping. */
  lemma UntexturedSoupOverlaps(a: Attrib, cs: seq<ObjIndex>, m: Mesh)
    requires |a.texcoords| == 0
    requires IsFlatSoup(m) && |m.uvs| == |cs|
    requires forall i :: 0 <= i < |cs| ==> m.uvs[i] == TexCoord(a, cs[i])
    requires FaceCount(m) >= 2
    ensures forall g :: 0 <= g < FaceCount(m) ==> IsCulprit(m, g)
  {
    forall g | 0 <= g < FaceCount(m)
      ensures Covers(m, g, 0)
    {
      var o := Vec2(0.0, 0.0);
      forall k | 0 <= k < 3
        ensures CornerUv(m, g, k) == o
      {
        var i := 3 * g + k;
        if i < |m.uvIndices| {
          assert m.uvIndices[i] == i;
          assert m.uvs[i] == TexCoord(a, cs[i]);
        }
      }
      assert FaceBox(m, g) == BoundingBox(o, o, o);
      assert IsInside(o, o, o, TestPoint(0, 0));
    }
    forall g | 0 <= g < FaceCount(m)
      ensures IsCulprit(m, g)
    {
      var h := if g == 0 then 1 else 0;
      assert SharesCell(m, g, h, 0);
    }
  }

  /** A loaded triangle soup meets what the checkers ask of their input. */
  lemma FlatSoupIsCheckable(m: Mesh)
    requires IsFlatSoup(m) && |m.vertices| % 3 == 0
    ensures |m.vertexIndices| % 3 == 0
    ensures UvIndexed(m)
  {
  }
}
