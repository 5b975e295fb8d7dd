# MeshChecker in Dafny

A model of the analysis core of MeshChecker, a desktop tool that loads an OBJ
mesh and reports defects: whether it is watertight, its non-manifold
vertices, self-intersections, holes and degenerate faces, and, in texture
space, overlapping UV triangles and UVs outside the unit square.

The modules follow the source files:

- `CheckResults` (check_result.dfy) is `MeshChecker.h`. It holds the seven
  check kinds, the result record, and `CheckResult::clear`.
- `MeshModel` (mesh.dfy) is the shared mesh. It has seven parallel arrays,
  and face `f` is made of corners `3f`, `3f+1` and `3f+2`.
- `UvGeometry`, `UvOverlap`, `UvIslands` and `UvChecker` are `UvChecker.cpp`:
  - `sign` and `is_inside`;
  - the 1024 × 1024 grid rasteriser behind `countOverlappingUvIslands`;
  - the island search `findUVIslands`;
  - `hasUvs` and `countUvsOutOfBounds`.
- `BorderLoops` and `MeshChecker` are `MeshChecker::check`. CGAL's answers
  are a `CgalReport` given as input. The model covers the check's own logic:
  - the zero-initialised result;
  - gating every field on the requested kinds;
  - numbering faces in iteration order;
  - de-duplicating and sorting face lists;
  - the hole walk, which records the *start* vertex's number for every step,
    as the source does;
  - the exception path, on which the result is returned as filled in so far.
- `ObjLoader` is the flattening half of `ObjLoader::load_indexed`. Each face
  corner contributes one position, normal and UV. All index arrays become
  the identity.
- `Common` holds shared helpers:
  - `std::set` → ascending `std::vector`;
  - a property map that keeps the last write;
  - `Option`.

Coordinates are exact reals. The source dereferences vectors without
checks. Where it relies on an index being in range, the model makes that a
`requires`, for example `UvIndexed` and `WellFormed`.

The border walk follows `successor_map.at`, which throws on a vertex with no
outgoing border halfedge. It is written as total recursive functions over an
explicit visited set, so `Check`'s contract can name the loops it produces.

## Model

| member | source | states |
|---|---|---|
| CheckResults.CheckTypesAreSevenDistinct | src/MeshChecker.h:11-19 | The enum has exactly seven kinds, and every kind is one of them. |
| CheckResults.Clear | src/MeshChecker.h:37-50 | `clear()` leaves the result in the cleared state: every count zero, both flags false, every list empty. |
| CheckResults.ClearedIsUnique | src/MeshChecker.h:37-50 | Two results that are both in the cleared state are equal. So clearing fixes all twelve fields: scalars zero or false, lists empty. |
| CheckResults.ClearForgetsPriorState | src/MeshChecker.h:37-50 | `clear()` gives the same result whatever the prior state was. |
| CheckResults.ClearIsIdempotent | src/MeshChecker.h:37-50 | Clearing twice is the same as clearing once. |
| UvChecker.HasUvsIsSomeUvIndex | src/UvChecker.cpp:28-31 | When every UV index names a stored UV, `hasUvs` holds exactly when some corner has a UV index. |
| UvChecker.CountUvsOutOfBounds | src/UvChecker.cpp:33-42 | The count is the number of UVs with a coordinate outside [0, 1]. It lies between 0 and the number of UVs. It is zero exactly when every UV is inside the unit square. |
| UvChecker.CountOverlappingUvIslands | src/UvChecker.cpp:44-98 | Without UVs it returns 0 and leaves the output list untouched. Otherwise the list is ascending, holds exactly the faces that cover a grid cell some other face covers, and its length is the count. The count is never 1, and every entry is a face index. |
| UvChecker.RasterizeFaces | src/UvChecker.cpp:56-89 | Drawing all faces in index order from an all-empty grid collects exactly the faces that cover some cell another face also covers. Which of the two was drawn first does not matter: the earlier one is collected when the later one meets it. |
| UvOverlap.BoundingBox | src/UvChecker.cpp:66-69 | The floor/ceil bounding box, clamped to the grid, stays within cells 0 … 1023 on both axes. |
| UvOverlap.LastOwner | src/UvChecker.cpp:76-85 | After faces 0 … k-1 are drawn, a cell holds the last of them that covers it, or -1 when none does. |
| UvOverlap.RasterizeFace | src/UvChecker.cpp:60-89 | Drawing face f updates every cell to its last owner among faces 0 … f. If f covers a cell that already has an owner, f is added to the culprits. So is the current owner of each such cell, that is, the last earlier face covering it. Earlier owners of that cell are not added again: if faces 0, 1 and 2 cover a cell, drawing face 2 adds 1 and 2. |
| UvOverlap.DrawPoint | src/UvChecker.cpp:72-85 | Drawing grid point (x, y) adds to the culprits exactly this face and the cell's owner, when the face covers a cell that already has an owner. |
| UvOverlap.OverlapStep | src/UvChecker.cpp:79-84 | Take the faces among 0 … f that share a cell with another of them. They are the same faces among 0 … f-1, plus what drawing f adds: f itself and the current owner of each owned cell f covers. |
| UvOverlap.OverlapsAreCulprits | src/UvChecker.cpp:75-85 | The culprits the grid collects are exactly the faces that share a covered cell with another face. |
| UvOverlap.CulpritsComeInPairs | src/UvChecker.cpp:79-84 | Every culprit has a different culprit partner, since both faces of a collision are inserted. |
| UvOverlap.CoversInBox | src/UvChecker.cpp:72-76 | A box point that passes the inside test lies on the grid and is covered by the face. |
| UvGeometry.SignIsOrientation | src/UvChecker.cpp:155-157 | `sign` is twice the signed area of the triangle. Rotating its arguments keeps it, and swapping two negates it. |
| UvGeometry.InsideUnderRotation | src/UvChecker.cpp:159-171 | `is_inside` does not depend on which vertex is listed first. |
| UvGeometry.InsideUnderReversal | src/UvChecker.cpp:159-171 | `is_inside` does not depend on the winding direction. |
| UvGeometry.VerticesAreInside | src/UvChecker.cpp:159-171 | Each vertex of the triangle passes the test. |
| UvGeometry.ConvexCombinationIsInside | src/UvChecker.cpp:159-171 | Every point of the closed triangle, edges included, passes the test, whatever the triangle's shape. |
| UvGeometry.InsideIsConvexCombination | src/UvChecker.cpp:159-171 | Conversely, for a triangle of non-zero area, a point that passes has non-negative barycentric weights. |
| UvIslands.BuildUvToFaceMap | src/UvChecker.cpp:109-114 | Each UV index maps to exactly the faces that use it, and every used index is a key. |
| UvIslands.BuildAdjacency | src/UvChecker.cpp:116-123 | Every neighbour of a face shares a UV index with it. Every other face that shares one is a neighbour. |
| UvIslands.FindUvIslands | src/UvChecker.cpp:103-152 | Every face gets one island id, and island k holds exactly the faces with id k, without repeats. Faces that share a UV index get the same id. Faces with the same id are linked by a chain of UV-sharing faces. Each island is listed from its lowest face, and islands are ordered by that face. |
| UvIslands.ConnectThroughRoot | src/UvChecker.cpp:136-148 | Two faces reached from the same start of the search are UV-connected to each other. |
| BorderLoops.SuccessorMap | src/MeshChecker.cpp:119-122 | The successor of a vertex is the last border halfedge leaving it. The map has exactly the sources of border halfedges as keys. |
| BorderLoops.WalkFrom | src/MeshChecker.cpp:127-135 | The walk from a start vertex has the following properties. <ul><li>It records the start's number once per step.</li><li>It throws exactly when it reaches a vertex with no successor.</li><li>Otherwise it stops at a visited vertex or one already on the path.</li><li>It never throws when every target has a successor.</li></ul> |
| BorderLoops.WalkFromPath | src/MeshChecker.cpp:127-135 | The walk visits new, pairwise distinct vertices, each joined to the next by its successor halfedge. |
| BorderLoops.WalkAll | src/MeshChecker.cpp:124-137 | There is one path per pushed loop, plus one for the walk that threw, if any. Every path is non-empty. |
| BorderLoops.WalkAllShape | src/MeshChecker.cpp:125-137 | Every walk starts at a candidate vertex that has a successor. Each loop is as long as its walk, and all its entries equal its start's number. A throw ends the walk. |
| BorderLoops.WalkAllStartsInTurn | src/MeshChecker.cpp:125-126 | The starts are taken in candidate order. Walk i starts at candidate pos[i], and the positions ascend. A start has a successor and is unvisited, both before the walks and by walks 0 … i-1. Every candidate between two starts, or after the last start when nothing threw, was already visited or has no successor when its turn comes. |
| BorderLoops.WalkAllDisjoint | src/MeshChecker.cpp:124-137 | No vertex is walked twice, across all loops. |
| BorderLoops.WalkAllFollows | src/MeshChecker.cpp:129-134 | Every walked path follows successors. On a throw, the last vertex has no successor. |
| BorderLoops.WalkAllStops | src/MeshChecker.cpp:129-134 | Without a throw, every walk ends at a vertex that has a successor. That successor's target was visited before the walks began, or on this walk or an earlier one. |
| BorderLoops.WalkAllCovers | src/MeshChecker.cpp:125-137 | When the walk completes, every numbered vertex with an outgoing border halfedge is on some loop. |
| BorderLoops.ReturnsToStart | src/MeshChecker.cpp:129-134 | Take a repeat-free walk along successors over new vertices that stops at a visited vertex or on itself. If the visited set is closed under predecessors and no two border halfedges share a target, the walk stops exactly at its start. |
| BorderLoops.CycleKeepsClosed | src/MeshChecker.cpp:129 | Adding a walk that closes at its start to a visited set closed under predecessors keeps it closed. |
| BorderLoops.ClosingTargetIsStart | src/MeshChecker.cpp:129-134 | A repeat-free path along successors with distinct targets can step back onto itself only at its first vertex. |
| BorderLoops.WalkAllCycles | src/MeshChecker.cpp:124-137 | On a border of disjoint cycles, nothing throws. Disjoint cycles means every target has a successor and no two halfedges share a target. Every walk ends at a vertex whose successor is the walk's start, so every loop is one whole border cycle. |
| BorderLoops.WalkBorder | src/MeshChecker.cpp:108-137 | Every entry of loop i is the position of walk i's start in vertex iteration order. When a vertex repeats, the position is its last one. Walks start at the vertices in ascending order, in turn, as WalkAllStartsInTurn states. On a border of disjoint cycles, nothing throws and every loop is a whole cycle. |
| BorderLoops.ClosedBorderNeverThrows | src/MeshChecker.cpp:132 | When every border target is itself a border source, `at` never throws. |
| MeshChecker.InitialIsCleared | src/MeshChecker.cpp:25-34 | The result `check` starts from equals what `clear()` produces. |
| MeshChecker.Polygons | src/MeshChecker.cpp:45-49 | The soup has one three-corner polygon per three indices, and together they are the index array in order. |
| MeshChecker.OriginalIndexIsPosition | src/MeshChecker.cpp:62-72 | The k-th face in iteration order is numbered k. |
| MeshChecker.NonManifoldFaceSet | src/MeshChecker.cpp:85-89 | The set holds exactly the original indices of the faces of non-border halfedges. |
| MeshChecker.IntersectingFaceSet | src/MeshChecker.cpp:98-102 | The set holds exactly the original indices of both faces of every intersecting pair. |
| MeshChecker.IntersectingFacesSymmetric | src/MeshChecker.cpp:99-102 | The set does not depend on the order within each pair. |
| MeshChecker.RunCgalChecks | src/MeshChecker.cpp:75-145 | The five CGAL-backed checks run in enum order. Each field is as its check specifies when that check is requested and reached, and keeps its initial value otherwise. `threw` holds exactly when the UV stage is not reached, and the UV fields stay initial. |
| MeshChecker.RunWatertight | src/MeshChecker.cpp:75-78 | Only `is_watertight` may change. It becomes true exactly when the check is requested, `is_closed` does not throw, and the mesh is closed. |
| MeshChecker.RunNonManifold | src/MeshChecker.cpp:80-91 | Only the two non-manifold fields may change. When the check completes, the count is the number of halfedges, and the face list is ascending and holds exactly the faces of the non-border ones. Otherwise both stay empty. |
| MeshChecker.RunSelfIntersect | src/MeshChecker.cpp:93-104 | Only the two intersection fields may change. When the check completes, the count is the number of pairs, and the face list is ascending and holds exactly the faces of some pair. Otherwise both stay empty. |
| MeshChecker.RunHoles | src/MeshChecker.cpp:106-140 | Only the two hole fields may change. When the check completes, the loops are those of the walk, or none for an empty border, and the count is their number. When the walk throws, its loops so far are kept and the count stays zero. |
| MeshChecker.RunDegenerate | src/MeshChecker.cpp:142-145 | Only the degenerate count may change. It becomes the number of removed faces exactly when the check completes. |
| MeshChecker.RunUvChecks | src/MeshChecker.cpp:147-156 | `has_uvs` is always computed. Each requested UV count is filled only when UVs exist. Every other field is unchanged. |
| MeshChecker.Check | src/MeshChecker.cpp:23-166 | Every field is as its check specifies when that check is requested and reached. Otherwise it keeps its initial value. A throw stops all later checks. A throw during soup repair, the `soupRepairThrows` parameter, changes nothing. |
| MeshChecker.ResultIsDetermined | src/MeshChecker.cpp:51-56 | `Check`'s contract fixes the result completely. That contract does not mention a throw during soup repair, so such a throw leaves the result unchanged. |
| MeshChecker.ClosedBorderCompletes | src/MeshChecker.cpp:106-140 | If every border target has a successor, a requested Holes check that is reached and whose call succeeds completes. |
| ObjLoader.LoadIndexed | src/ObjLoader.cpp:13-96 | If parsing fails, it returns false with the six arrays empty. Otherwise it returns true with one position, UV and normal per corner, in shape, face, corner order. A missing texcoord gives (0,0), and a missing normal gives zero. Without any normals, each corner gets its triangle's flat normal instead. The index arrays are all the identity, and colours are untouched. |
| ObjLoader.Flatten | src/ObjLoader.cpp:33-73 | After the nested loops, the arrays hold the attributes of exactly the corners read, in loop order. |
| ObjLoader.FillFlatNormals | src/ObjLoader.cpp:83-93 | Every corner gets the normalised cross product of its triangle's two edges. |
| ObjLoader.TriangulatedShapeReadsInOrder | src/ObjLoader.cpp:35-40 | With three corners per face, the `f * fv + v` lookup reads a shape's corners in their stored order. |
| ObjLoader.FlatSoupHasUvs | src/ObjLoader.cpp:63-81 | A loaded mesh has UVs exactly when it has a corner, even without texcoords, and every UV index is valid. |
| ObjLoader.UntexturedSoupOverlaps | src/ObjLoader.cpp:62-70 | A file without texcoords loads with every UV at (0,0). Every face then covers grid cell 0, so with two or more faces every face is an overlap culprit. |
| ObjLoader.FlatSoupIsCheckable | src/ObjLoader.cpp:76-81 | A loaded triangle soup meets the UV checker's indexing requirement. |
| ObjLoader.FlatNormalIsPerpendicular | src/ObjLoader.cpp:86-88 | The flat normal each corner gets, before normalisation, is perpendicular to both edges of that corner's triangle. |
| Common.SortedElements | src/MeshChecker.cpp:90 | `assign(set.begin(), set.end())` gives an ascending list of exactly the set's elements, of the set's size. |

## Left out

- `MeshChecker::intersects` and the Qt user interface, which are outside the checking core.
- `Logger` calls, which are output only.
- The CGAL algorithms themselves. Their outcomes are inputs (`CgalReport`): `is_closed`, `non_manifold_vertices`, `self_intersections`, `border_halfedges`, `remove_degenerate_faces`, the soup-to-mesh conversion, and face and vertex iteration order. Soup repair and orientation are also inputs. Their effect on the soup is not modelled, and a throw from them is a flag that `Check` ignores, as the source's inner `catch` does.
- The conversion of positions into CGAL points (src/MeshChecker.cpp:39-43). It only feeds CGAL.
- `tinyobj::LoadObj`. Its outcome is the `parsed` parameter.
- `ObjLoader::load`, which only forwards to `load_indexed`.
- `glm::normalize`, which is a function parameter.
- Floating point. All arithmetic is exact, so rounding in `sign`, in `x / GRID_RESOLUTION` and in the bounds tests is not modelled.
- The `int`/`size_t` conversions of counts and face ids. The model's integers are unbounded. The source computes corner positions `face_idx * 3 + k` (src/UvChecker.cpp:61-63, :112) in `int`, so the model matches it only below 2^31 / 3, about 7.16 × 10^8 faces. It also matches only while the UV count of `countUvsOutOfBounds` fits in `int`. The float-to-`int` casts of the bounding box (src/UvChecker.cpp:66-69) are likewise exact only while UVs times 1024 fit in `int`.
- UvChecker.CountOverlappingUvIslands: the island list it computes and discards is not part of its result, and the model discards it the same way.
- UvIslands.FindUvIslands: the order of faces inside an island is not stated. Only its first face, its membership and the absence of repeats are.
- Exceptions other than the CGAL calls and the hole walk, such as `bad_alloc` during the UV stage. They are not modelled.
- MeshChecker.Check: a mesh whose index count is not a multiple of three is excluded by `requires`. The source reads past the end of the index array for such a mesh.
- ObjLoader.LoadIndexed: when the file has no normals, a corner count that is not a multiple of three is excluded by `requires`. The flat-normal loop reads and writes past the end of the arrays for such a file. Indices outside the attribute arrays are excluded by `WellFormed` for the same reason.
