/**
 The grid rasterisation behind `countOverlappingUvIslands`
 (src/UvChecker.cpp). Every UV triangle is probed at the grid points of its
 clamped bounding box; a cell that passes the point-in-triangle test is
 "covered" by the face. The grid remembers the last face that covered each
 cell, and a face meeting a cell already owned by another face makes both of
 them culprits.

 The declarative side is `Covers` (which cells a face covers) and
 `IsCulprit` (a face covers some cell another face covers); the lemmas here
 show that the one-pass grid algorithm computes exactly the culprits.
 */
module UvOverlap {
  import opened Common
  import opened MeshModel
  import opened UvGeometry

  /** `GRID_RESOLUTION`. */
  const GridResolution: int := 1024
  const GridCells: int := GridResolution * GridResolution

  function Min(a: int, b: int): int { if a <= b then a else b }
  function Max(a: int, b: int): int { if a >= b then a else b }
  function Min3(a: real, b: real, c: real): real {
    if a <= b && a <= c then a else if b <= c then b else c
  }
  function Max3(a: real, b: real, c: real): real {
    if a >= b && a >= c then a else if b >= c then b else c
  }
  function Ceil(r: real): int { -((-r).Floor) }

  /** Inclusive cell ranges of a triangle's bounding box. */
  datatype Box = Box(minX: int, maxX: int, minY: int, maxY: int) {
    predicate Contains(x: int, y: int) {
      minX <= x <= maxX && minY <= y <= maxY
    }
  }

  /** The bounding box of a UV triangle in cells, clamped to the grid. */
  function BoundingBox(p1: Vec2, p2: Vec2, p3: Vec2): (b: Box)
    ensures 0 <= b.minX && b.maxX <= GridResolution - 1
    ensures 0 <= b.minY && b.maxY <= GridResolution - 1
  {
    var r := GridResolution as real;
    Box(Max(0, (Min3(p1.x, p2.x, p3.x) * r).Floor),
        Min(GridResolution - 1, Ceil(Max3(p1.x, p2.x, p3.x) * r)),
        Max(0, (Min3(p1.y, p2.y, p3.y) * r).Floor),
        Min(GridResolution - 1, Ceil(Max3(p1.y, p2.y, p3.y) * r)))
  }

  /** The UV position of grid point (x, y). */
  function TestPoint(x: int, y: int): Vec2 {
    Vec2(x as real / GridResolution as real, y as real / GridResolution as real)
  }

  /** `y * GRID_RESOLUTION + x`. */
  function GridIndex(x: int, y: int): int {
    y * GridResolution + x
  }

  /** Every cell of every box lies on the grid. */
  lemma GridIndexInRange(b: Box, x: int, y: int)
    requires 0 <= b.minX && b.maxX <= GridResolution - 1
    requires 0 <= b.minY && b.maxY <= GridResolution - 1
    requires b.Contains(x, y)
    ensures 0 <= GridIndex(x, y) < GridCells
    ensures GridIndex(x, y) % GridResolution == x && GridIndex(x, y) / GridResolution == y
  {
  }

  function FaceBox(m: Mesh, f: nat): Box {
    BoundingBox(CornerUv(m, f, 0), CornerUv(m, f, 1), CornerUv(m, f, 2))
  }

  /** Face `f` covers cell `c`: the cell is in the face's box and its grid
      point passes the point-in-triangle test. */
  predicate Covers(m: Mesh, f: int, c: int) {
    && 0 <= f < FaceCount(m)
    && 0 <= c < GridCells
    && FaceBox(m, f).Contains(c % GridResolution, c / GridResolution)
    && IsInside(CornerUv(m, f, 0), CornerUv(m, f, 1), CornerUv(m, f, 2),
                TestPoint(c % GridResolution, c / GridResolution))
  }

  /** Two different faces cover the same cell. */
  predicate SharesCell(m: Mesh, g: int, h: int, c: int) {
    g != h && Covers(m, g, c) && Covers(m, h, c)
  }

  /** The specification of a culprit: a face that covers some cell another
      face also covers. */
  ghost predicate IsCulprit(m: Mesh, g: int) {
    exists h: int, c: int :: SharesCell(m, g, h, c)
  }

  /** The face the grid holds for cell `c` once faces `0 .. k-1` are drawn:
      the last of them that covers `c`, or -1. */
  function LastOwner(m: Mesh, c: int, k: nat): (r: int)
    ensures -1 <= r < k
    ensures r >= 0 ==> Covers(m, r, c)
    ensures forall h :: r < h < k ==> !Covers(m, h, c)
  {
    if k == 0 then -1
    else if Covers(m, k - 1, c) then k - 1
    else LastOwner(m, c, k - 1)
  }

  /** Faces below `k` that share a cell with another face below `k`. */
  ghost predicate OverlapsAmong(m: Mesh, k: nat, g: int) {
    exists h: int, c: int :: 0 <= h < k && SharesCell(m, g, h, c)
  }

  ghost function OverlapsBefore(m: Mesh, k: nat): set<nat> {
    set g: nat | g < k && OverlapsAmong(m, k, g)
  }

  /** What drawing face `f` adds to the culprits: `f` itself and the previous
      owner of each owned cell it covers. */
  ghost predicate MeetsOwner(m: Mesh, f: nat, c: int, g: int) {
    Covers(m, f, c) && LastOwner(m, c, f) >= 0 && (g == f || g == LastOwner(m, c, f))
  }

  ghost predicate FaceCulprit(m: Mesh, f: nat, g: int) {
    exists c: int :: MeetsOwner(m, f, c, g)
  }

  ghost function FaceCulprits(m: Mesh, f: nat): set<nat> {
    set g: nat | g <= f && FaceCulprit(m, f, g)
  }

  /** Row-major order: the cells strictly before grid point (x, y). */
  predicate Before(c: int, x: int, y: int) {
    c / GridResolution < y || (c / GridResolution == y && c % GridResolution < x)
  }

  /** `FaceCulprits` restricted to the cells drawn before (x, y). */
  ghost predicate FaceCulpritBefore(m: Mesh, f: nat, x: int, y: int, g: int) {
    exists c: int :: Before(c, x, y) && MeetsOwner(m, f, c, g)
  }

  ghost function FaceCulpritsBefore(m: Mesh, f: nat, x: int, y: int): set<nat> {
    set g: nat | g <= f && FaceCulpritBefore(m, f, x, y, g)
  }

  /** Drawing face `f` extends the culprits among the first `f` faces to the
      culprits among the first `f + 1`. */
  lemma OverlapStep(m: Mesh, f: nat)
    requires f < FaceCount(m)
    ensures OverlapsBefore(m, f + 1) == OverlapsBefore(m, f) + FaceCulprits(m, f)
  {
    var a := OverlapsBefore(m, f + 1);
    var b := OverlapsBefore(m, f);
    var fc := FaceCulprits(m, f);
    forall g | g in a
      ensures g in b + fc
    {
      var h, c :| 0 <= h < f + 1 && SharesCell(m, g, h, c);
      if g == f {
        assert LastOwner(m, c, f) >= h;
        assert MeetsOwner(m, f, c, g);
      } else if h == f {
        var o := LastOwner(m, c, f);
        assert o >= g;
        if o == g {
          assert MeetsOwner(m, f, c, g);
        } else {
          assert SharesCell(m, g, o, c);
          assert g in b;
        }
      } else {
        assert g in b;
      }
    }
    forall g | g in b + fc
      ensures g in a
    {
      if g in b {
        var h, c :| 0 <= h < f && SharesCell(m, g, h, c);
        assert 0 <= h < f + 1;
      } else {
        var c :| MeetsOwner(m, f, c, g);
        var o := LastOwner(m, c, f);
        if g == f {
          assert SharesCell(m, g, o, c);
        } else {
          assert SharesCell(m, g, f, c);
        }
      }
    }
  }

  /** Once every face is drawn, the culprits are exactly the faces that
      share a cell with another face. */
  lemma OverlapsAreCulprits(m: Mesh)
    ensures forall g: nat :: g in OverlapsBefore(m, FaceCount(m)) <==> IsCulprit(m, g)
  {
    forall g: nat
      ensures g in OverlapsBefore(m, FaceCount(m)) <==> IsCulprit(m, g)
    {
      if IsCulprit(m, g) {
        var h, c :| SharesCell(m, g, h, c);
        assert 0 <= h < FaceCount(m);
      }
    }
  }

  /** Culprits come in pairs: whoever shares a cell with a culprit is one. */
  lemma CulpritsComeInPairs(m: Mesh)
    ensures forall g :: g in OverlapsBefore(m, FaceCount(m)) ==>
      exists h :: h in OverlapsBefore(m, FaceCount(m)) && h != g
  {
    var s := OverlapsBefore(m, FaceCount(m));
    forall g | g in s
      ensures exists h :: h in s && h != g
    {
      var h, c :| 0 <= h < FaceCount(m) && SharesCell(m, g, h, c);
      assert SharesCell(m, h, g, c);
      assert h as nat in s;
    }
  }

  /** Moving from one drawing position to another that has drawn the same
      covered cells leaves the partial culprits unchanged. */
  lemma SameCoveredCells(m: Mesh, f: nat, x1: int, y1: int, x2: int, y2: int)
    requires forall c :: Covers(m, f, c) ==> (Before(c, x1, y1) <==> Before(c, x2, y2))
    ensures FaceCulpritsBefore(m, f, x1, y1) == FaceCulpritsBefore(m, f, x2, y2)
  {
    forall g | g in FaceCulpritsBefore(m, f, x1, y1)
      ensures g in FaceCulpritsBefore(m, f, x2, y2)
    {
      var c :| Before(c, x1, y1) && MeetsOwner(m, f, c, g);
      assert Before(c, x2, y2);
    }
    forall g | g in FaceCulpritsBefore(m, f, x2, y2)
      ensures g in FaceCulpritsBefore(m, f, x1, y1)
    {
      var c :| Before(c, x2, y2) && MeetsOwner(m, f, c, g);
      assert Before(c, x1, y1);
    }
  }

  /** The only cell at row `y` and column `x` is `GridIndex(x, y)`. */
  lemma CellAt(d: int, x: int, y: int)
    requires 0 <= d && 0 <= x < GridResolution
    requires d / GridResolution == y && d % GridResolution == x
    ensures d == GridIndex(x, y)
  {
  }

  /** Drawing the grid point (x, y) of face `f`. */
  lemma DrawPoint(m: Mesh, f: nat, x: int, y: int)
    requires 0 <= x < GridResolution && 0 <= y < GridResolution
    ensures FaceCulpritsBefore(m, f, x + 1, y) == FaceCulpritsBefore(m, f, x, y) + CellCulprits(m, f, GridIndex(x, y))
  {
    DrawPointAddsOnlyCell(m, f, x, y);
    DrawPointKeepsAndAdds(m, f, x, y);
  }

  /** The culprits `f` meets at cell `c`: itself and the cell's owner, when
      `f` covers an owned cell. */
  ghost function CellCulprits(m: Mesh, f: nat, c: int): set<nat> {
    if Covers(m, f, c) && LastOwner(m, c, f) >= 0 then {f, LastOwner(m, c, f) as nat} else {}
  }

  lemma DrawPointAddsOnlyCell(m: Mesh, f: nat, x: int, y: int)
    requires 0 <= x < GridResolution
    ensures FaceCulpritsBefore(m, f, x + 1, y) <= FaceCulpritsBefore(m, f, x, y) + CellCulprits(m, f, GridIndex(x, y))
  {
    BeforeNext(x, y);
    forall g | g in FaceCulpritsBefore(m, f, x + 1, y)
      ensures g in FaceCulpritsBefore(m, f, x, y) + CellCulprits(m, f, GridIndex(x, y))
    {
      var d :| Before(d, x + 1, y) && MeetsOwner(m, f, d, g);
      if !Before(d, x, y) {
        assert d == GridIndex(x, y);
      }
    }
  }

  lemma DrawPointKeepsAndAdds(m: Mesh, f: nat, x: int, y: int)
    requires 0 <= x < GridResolution
    ensures FaceCulpritsBefore(m, f, x, y) + CellCulprits(m, f, GridIndex(x, y)) <= FaceCulpritsBefore(m, f, x + 1, y)
  {
    var c := GridIndex(x, y);
    BeforeNext(x, y);
    forall g | g in FaceCulpritsBefore(m, f, x, y) + CellCulprits(m, f, c)
      ensures g in FaceCulpritsBefore(m, f, x + 1, y)
    {
      if g in FaceCulpritsBefore(m, f, x, y) {
        var d :| Before(d, x, y) && MeetsOwner(m, f, d, g);
        assert Before(d, x + 1, y);
      } else {
        assert Before(c, x + 1, y) && MeetsOwner(m, f, c, g);
      }
    }
  }

  /** Once the rows past the box are reached, every covered cell is drawn. */
  lemma AllCellsDrawn(m: Mesh, f: nat, x: int, y: int)
    requires y > FaceBox(m, f).maxY
    ensures FaceCulpritsBefore(m, f, x, y) == FaceCulprits(m, f)
  {
    forall g | g in FaceCulprits(m, f)
      ensures g in FaceCulpritsBefore(m, f, x, y)
    {
      var c :| MeetsOwner(m, f, c, g);
      assert Before(c, x, y);
    }
  }

  /** Advancing one column in row `y` draws exactly the cell at (x, y). */
  lemma BeforeNext(x: int, y: int)
    requires 0 <= x < GridResolution
    ensures forall c :: 0 <= c ==> (Before(c, x + 1, y) <==> Before(c, x, y) || c == GridIndex(x, y))
  {
    forall c | 0 <= c
      ensures Before(c, x + 1, y) <==> Before(c, x, y) || c == GridIndex(x, y)
    {
      if Before(c, x + 1, y) && !Before(c, x, y) {
        CellAt(c, x, y);
      }
    }
  }

  /** In its box, a face covers a cell exactly when the cell's grid point
      passes the point-in-triangle test. */
  lemma CoversInBox(m: Mesh, f: nat, x: int, y: int)
    requires f < FaceCount(m)
    requires FaceBox(m, f).Contains(x, y)
    ensures 0 <= GridIndex(x, y) < GridCells
    ensures Covers(m, f, GridIndex(x, y))
      <==> IsInside(CornerUv(m, f, 0), CornerUv(m, f, 1), CornerUv(m, f, 2), TestPoint(x, y))
  {
    GridIndexInRange(FaceBox(m, f), x, y);
  }

  /** Drawing the grid point (x, y) of face `f`: if it lies inside the
      triangle and its cell is owned by another face, both faces become
      culprits; either way an inside point gives the cell to `f`. */
  method RasterizePoint(m: Mesh, f: nat, x: int, y: int, grid: seq<int>, culprits: set<nat>,
                        ghost base: set<nat>)
    returns (grid': seq<int>, culprits': set<nat>)
    requires UvIndexed(m) && f < FaceCount(m)
    requires FaceBox(m, f).Contains(x, y)
    requires |grid| == GridCells
    requires forall c :: 0 <= c < GridCells ==>
      grid[c] == (if Covers(m, f, c) && Before(c, x, y) then f else LastOwner(m, c, f))
    requires culprits == base + FaceCulpritsBefore(m, f, x, y)
    ensures |grid'| == GridCells
    ensures forall c :: 0 <= c < GridCells ==>
      grid'[c] == (if Covers(m, f, c) && Before(c, x + 1, y) then f else LastOwner(m, c, f))
    ensures culprits' == base + FaceCulpritsBefore(m, f, x + 1, y)
  {
    var uv1 := m.uvs[m.uvIndices[f * 3 + 0]];
    var uv2 := m.uvs[m.uvIndices[f * 3 + 1]];
    var uv3 := m.uvs[m.uvIndices[f * 3 + 2]];
    assert uv1 == CornerUv(m, f, 0) && uv2 == CornerUv(m, f, 1) && uv3 == CornerUv(m, f, 2);
    var testPoint := TestPoint(x, y);
    CoversInBox(m, f, x, y);
    DrawPoint(m, f, x, y);
    GridBox(m, f, x, y);
    var inside := IsInside(uv1, uv2, uv3, testPoint);
    DrawCell(m, f, x, y, grid, inside);
    grid', culprits' := grid, culprits;
    if inside {
      var gridIndex := y * GridResolution + x;
      var collidingFace := grid'[gridIndex];
      if collidingFace != -1 && collidingFace != f {
        culprits' := culprits' + {f, collidingFace as nat};
      }
      grid' := grid'[gridIndex := f];
    }
  }

  lemma GridBox(m: Mesh, f: nat, x: int, y: int)
    requires f < FaceCount(m) && FaceBox(m, f).Contains(x, y)
    ensures 0 <= x < GridResolution
  {
  }

  /** The grid after drawing (x, y): the cell there passes to `f` exactly
      when `f` covers it, and every other cell keeps its owner. */
  lemma DrawCell(m: Mesh, f: nat, x: int, y: int, grid: seq<int>, inside: bool)
    requires 0 <= x < GridResolution && 0 <= GridIndex(x, y) < GridCells
    requires inside <==> Covers(m, f, GridIndex(x, y))
    requires |grid| == GridCells
    requires forall c :: 0 <= c < GridCells ==>
      grid[c] == (if Covers(m, f, c) && Before(c, x, y) then f else LastOwner(m, c, f))
    ensures var grid' := if inside then grid[GridIndex(x, y) := f] else grid;
      forall c :: 0 <= c < GridCells ==>
        grid'[c] == (if Covers(m, f, c) && Before(c, x + 1, y) then f else LastOwner(m, c, f))
  {
    BeforeNext(x, y);
  }

  /** One row of the rasterisation of face `f`: the columns of its box, left
      to right. */
  method RasterizeRow(m: Mesh, f: nat, y: int, grid: seq<int>, culprits: set<nat>, ghost base: set<nat>)
    returns (grid': seq<int>, culprits': set<nat>)
    requires UvIndexed(m) && f < FaceCount(m)
    requires FaceBox(m, f).minY <= y <= FaceBox(m, f).maxY
    requires |grid| == GridCells
    requires forall c :: 0 <= c < GridCells ==>
      grid[c] == (if Covers(m, f, c) && Before(c, 0, y) then f else LastOwner(m, c, f))
    requires culprits == base + FaceCulpritsBefore(m, f, 0, y)
    ensures |grid'| == GridCells
    ensures forall c :: 0 <= c < GridCells ==>
      grid'[c] == (if Covers(m, f, c) && Before(c, 0, y + 1) then f else LastOwner(m, c, f))
    ensures culprits' == base + FaceCulpritsBefore(m, f, 0, y + 1)
  {
    var box := FaceBox(m, f);
    grid', culprits' := grid, culprits;
    var x := box.minX;
    RowStart(m, f, y);
    SameCoveredCells(m, f, 0, y, x, y);
    while x <= box.maxX
      invariant box.minX <= x
      invariant |grid'| == GridCells
      invariant forall c :: 0 <= c < GridCells ==>
        grid'[c] == (if Covers(m, f, c) && Before(c, x, y) then f else LastOwner(m, c, f))
      invariant culprits' == base + FaceCulpritsBefore(m, f, x, y)
    {
      grid', culprits' := RasterizePoint(m, f, x, y, grid', culprits', base);
      x := x + 1;
    }
    RowEnd(m, f, x, y);
    SameCoveredCells(m, f, x, y, 0, y + 1);
  }

  /** Within a face's box, starting a row at column 0 or at the box's left
      edge has drawn the same covered cells. */
  lemma RowStart(m: Mesh, f: nat, y: int)
    ensures forall c :: Covers(m, f, c) ==> (Before(c, 0, y) <==> Before(c, FaceBox(m, f).minX, y))
  {
  }

  /** Past the box's right edge, a row has drawn every covered cell it
      holds. */
  lemma RowEnd(m: Mesh, f: nat, x: int, y: int)
    requires x > FaceBox(m, f).maxX
    ensures forall c :: Covers(m, f, c) ==> (Before(c, x, y) <==> Before(c, 0, y + 1))
  {
  }

  /** The rasterisation of one face (the body of the face loop of
      `countOverlappingUvIslands`): every grid point of the face's clamped box
      is probed in row-major order; a point inside the triangle whose cell is
      owned by another face makes both faces culprits, and the cell passes to
      this face. */
  method RasterizeFace(m: Mesh, f: nat, grid: seq<int>, culprits: set<nat>)
    returns (grid': seq<int>, culprits': set<nat>)
    requires UvIndexed(m) && f < FaceCount(m)
    requires |grid| == GridCells
    requires forall c :: 0 <= c < GridCells ==> grid[c] == LastOwner(m, c, f)
    ensures |grid'| == GridCells
    ensures forall c :: 0 <= c < GridCells ==> grid'[c] == LastOwner(m, c, f + 1)
    ensures culprits' == culprits + FaceCulprits(m, f)
  {
    var box := FaceBox(m, f);
    grid', culprits' := grid, culprits;
    var y := box.minY;
    while y <= box.maxY
      invariant box.minY <= y
      invariant |grid'| == GridCells
      invariant forall c :: 0 <= c < GridCells ==>
        grid'[c] == (if Covers(m, f, c) && Before(c, 0, y) then f else LastOwner(m, c, f))
      invariant culprits' == culprits + FaceCulpritsBefore(m, f, 0, y)
    {
      grid', culprits' := RasterizeRow(m, f, y, grid', culprits', culprits);
      y := y + 1;
    }
    AllCellsDrawn(m, f, 0, y);
  }
}
