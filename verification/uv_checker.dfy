/**
 The three public UV checks of src/UvChecker.cpp: whether a mesh carries
 texture coordinates at all, how many of them fall outside the unit square,
 and which faces overlap another face in UV space.
 */
module UvChecker {
  import opened Common
  import opened MeshModel
  import opened UvIslands
  import opened UvOverlap

  /** `hasUvs`: both the coordinate array and the UV index array are
      non-empty; the other UV checks run only then. */
  predicate HasUvs(m: Mesh) {
    |m.uvs| > 0 && |m.uvIndices| > 0
  }

  /** When every UV index names a stored coordinate, the coordinate array
      is non-empty as soon as one index exists, so `hasUvs` is just "some
      corner has a UV index". */
  lemma HasUvsIsSomeUvIndex(m: Mesh)
    requires forall i :: 0 <= i < |m.uvIndices| ==> m.uvIndices[i] < |m.uvs|
    ensures HasUvs(m) <==> |m.uvIndices| > 0
  {
    if |m.uvIndices| > 0 {
      assert m.uvIndices[0] < |m.uvs|;
    }
  }

  /** A texture coordinate inside the closed unit square. */
  predicate InUnitSquare(p: Vec2) {
    0.0 <= p.x <= 1.0 && 0.0 <= p.y <= 1.0
  }

  /** Positions among the first `k` coordinates that leave the unit square. */
  ghost function OutOfBoundsAmong(uvs: seq<Vec2>, k: int): set<int> {
    set i | 0 <= i < k && i < |uvs| && !InUnitSquare(uvs[i])
  }

  /** `countUvsOutOfBounds`: the number of stored coordinates (referenced or
      not) with a component below 0 or above 1. */
  method CountUvsOutOfBounds(m: Mesh) returns (count: int)
    ensures count == |OutOfBoundsAmong(m.uvs, |m.uvs|)|
    ensures 0 <= count <= |m.uvs|
    ensures count == 0 <==> forall i :: 0 <= i < |m.uvs| ==> InUnitSquare(m.uvs[i])
  {
    count := 0;
    var k := 0;
    while k < |m.uvs|
      invariant 0 <= k <= |m.uvs|
      invariant count == |OutOfBoundsAmong(m.uvs, k)|
      invariant 0 <= count <= k
      invariant count == 0 <==> forall i :: 0 <= i < k ==> InUnitSquare(m.uvs[i])
    {
      var uv := m.uvs[k];
      if uv.x < 0.0 || uv.x > 1.0 || uv.y < 0.0 || uv.y > 1.0 {
        assert OutOfBoundsAmong(m.uvs, k + 1) == OutOfBoundsAmong(m.uvs, k) + {k};
        assert k !in OutOfBoundsAmong(m.uvs, k);
        count := count + 1;
      } else {
        assert OutOfBoundsAmong(m.uvs, k + 1) == OutOfBoundsAmong(m.uvs, k);
      }
      k := k + 1;
    }
  }

  /** `countOverlappingUvIslands`. Without UVs it returns 0 and leaves the
      output list alone. Otherwise it computes the islands (and discards
      them), rasterises every face in index order, and returns the culprit
      faces in ascending order together with their number: exactly the faces
      that cover a grid cell some other face covers, which is never a single
      face. */
  method CountOverlappingUvIslands(m: Mesh, overlappingFaces: seq<nat>) returns (count: int, faces: seq<nat>)
    requires HasUvs(m) ==> UvIndexed(m)
    ensures !HasUvs(m) ==> count == 0 && faces == overlappingFaces
    ensures HasUvs(m) ==> Increasing(faces)
    ensures HasUvs(m) ==> forall g: nat :: g in faces <==> IsCulprit(m, g)
    ensures HasUvs(m) ==> count == |faces| && count != 1
    ensures HasUvs(m) ==> forall g :: g in faces ==> g < FaceCount(m)
  {
    if !HasUvs(m) {
      return 0, overlappingFaces;
    }
    var islands, faceToIsland := FindUvIslands(m);
    count, faces := CollectCulprits(m);
  }

  /** Steps 2 and 3 of `countOverlappingUvIslands`: rasterise, then list the
      culprit set in ascending order. */
  method CollectCulprits(m: Mesh) returns (count: int, faces: seq<nat>)
    requires UvIndexed(m)
    ensures Increasing(faces)
    ensures forall g: nat :: g in faces <==> IsCulprit(m, g)
    ensures count == |faces| && count != 1
    ensures forall g :: g in faces ==> g < FaceCount(m)
  {
    var culprits := RasterizeFaces(m);
    OverlapsAreCulprits(m);
    CulpritsComeInPairs(m);
    NoSingleton(culprits);
    faces := SortedElements(culprits);
    count := |culprits|;
  }

  /** The face loop of `countOverlappingUvIslands`: faces drawn in index
      order into a grid that starts empty; the culprits collected are the
      faces that overlap another face. */
  method RasterizeFaces(m: Mesh) returns (culprits: set<nat>)
    requires UvIndexed(m)
    ensures culprits == OverlapsBefore(m, FaceCount(m))
  {
    var grid := seq(GridCells, _ => -1);
    culprits := {};
    var numFaces := FaceCount(m);
    var f := 0;
    assert OverlapsBefore(m, 0) == {};
    while f < numFaces
      invariant 0 <= f <= numFaces
      invariant |grid| == GridCells
      invariant forall c :: 0 <= c < GridCells ==> grid[c] == LastOwner(m, c, f)
      invariant culprits == OverlapsBefore(m, f)
    {
      OverlapStep(m, f);
      grid, culprits := RasterizeFace(m, f, grid, culprits);
      f := f + 1;
    }
  }
}
