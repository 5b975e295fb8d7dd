/**
 `MeshChecker::check` (src/MeshChecker.cpp): build a polygon soup from the
 mesh, hand it to CGAL, and fill in the result for each requested check.
 Everything CGAL computes arrives as a `CgalReport`; what is modelled is the
 check's own logic around it: the zero-initialised result, gating each field
 on the requested kinds, the original-face numbering, the de-duplicated and
 sorted face lists, the hole walk, and the exception path, on which the
 outer `catch` returns the result as filled in so far.
 */
module MeshChecker {
  import opened Common
  import opened MeshModel
  import opened CheckResults
  import opened BorderLoops
  import opened UvOverlap
  import opened UvChecker

  /** What the CGAL calls report for the soup built from a mesh, taken as
      given. `throwingCalls` names the checks whose CGAL call throws
      (`is_closed`, `non_manifold_vertices`, `self_intersections`,
      `border_halfedges`, `remove_degenerate_faces`); `meshBuildThrows` is a
      throw from `polygon_soup_to_polygon_mesh` or the property map. */
  datatype CgalReport = CgalReport(
    meshBuildThrows: bool,
    faceOrder: seq<nat>,
    vertexOrder: seq<nat>,
    isClosed: bool,
    nonManifoldHalfedges: seq<Halfedge>,
    selfIntersections: seq<(nat, nat)>,
    borderHalfedges: seq<Halfedge>,
    degenerateFacesRemoved: int,
    throwingCalls: set<CheckType>)

  /** The result before any check runs: the eight scalar fields set
      explicitly, the four lists empty as constructed. */
  function InitialResult(): (r: CheckResult)
    ensures IsCleared(r)
  {
    CheckResult(false, 0, 0, 0, 0, false, 0, 0, [], [], [], [])
  }

  /** The freshly initialised result is what `clear()` produces from any
      state. */
  lemma InitialIsCleared(r: CheckResult)
    ensures InitialResult() == Clear(r)
  {
    ClearedIsUnique(InitialResult(), Clear(r));
  }

  /** The soup's polygons: one triangle per three consecutive vertex
      indices. The source reads `i+1` and `i+2` without a bounds check, so a
      length that is not a multiple of 3 is excluded. */
  function Polygons(vertexIndices: seq<nat>): (polys: seq<seq<nat>>)
    requires |vertexIndices| % 3 == 0
    ensures |polys| == |vertexIndices| / 3
    ensures forall i :: 0 <= i < |polys| ==> |polys[i]| == 3
    ensures Concat(polys) == vertexIndices
    decreases |vertexIndices|
  {
    if vertexIndices == [] then []
    else
      var rest := Polygons(vertexIndices[3..]);
      var polys := [vertexIndices[..3]] + rest;
      assert polys[1..] == rest;
      assert vertexIndices == vertexIndices[..3] + vertexIndices[3..];
      polys
  }

  /** `original_face_indices`: CGAL faces numbered by a running counter in
      iteration order; a face never numbered reads the map's default 0. */
  function OriginalIndex(faceOrder: seq<nat>, fd: nat): (k: nat)
    ensures fd in faceOrder ==> k < |faceOrder| && faceOrder[k] == fd
    ensures fd !in faceOrder ==> k == 0
  {
    var index := LastPositions(faceOrder);
    if fd in index then index[fd] else 0
  }

  /** The k-th face in iteration order gets index k when, as in a CGAL
      mesh, no face is listed twice. */
  lemma OriginalIndexIsPosition(faceOrder: seq<nat>, k: nat)
    requires NoDuplicates(faceOrder) && k < |faceOrder|
    ensures OriginalIndex(faceOrder, faceOrder[k]) == k
  {
    PositionsOfDistinct(faceOrder, k);
  }

  /** `x` is the original index of the face of some non-border halfedge. */
  predicate IsNonManifoldFace(faceOrder: seq<nat>, hs: seq<Halfedge>, x: nat) {
    exists i :: 0 <= i < |hs| && hs[i].face.Some? && OriginalIndex(faceOrder, hs[i].face.value) == x
  }

  /** `non_manifold_faces_set`, filled halfedge by halfedge, skipping border
      halfedges. */
  function NonManifoldFaceSet(faceOrder: seq<nat>, hs: seq<Halfedge>): (s: set<nat>)
    ensures forall x :: x in s <==> IsNonManifoldFace(faceOrder, hs, x)
    decreases |hs|
  {
    if hs == [] then {}
    else
      var k := |hs| - 1;
      var rest := NonManifoldFaceSet(faceOrder, hs[..k]);
      assert forall i :: 0 <= i < k ==> hs[..k][i] == hs[i];
      if hs[k].face.Some? then rest + {OriginalIndex(faceOrder, hs[k].face.value)} else rest
  }

  /** `x` is the original index of either face of some intersecting pair. */
  predicate IsIntersectingFace(faceOrder: seq<nat>, pairs: seq<(nat, nat)>, x: nat) {
    exists i :: 0 <= i < |pairs| && (OriginalIndex(faceOrder, pairs[i].0) == x || OriginalIndex(faceOrder, pairs[i].1) == x)
  }

  /** `intersecting_faces_set`, filled pair by pair with both faces. */
  function IntersectingFaceSet(faceOrder: seq<nat>, pairs: seq<(nat, nat)>): (s: set<nat>)
    ensures forall x :: x in s <==> IsIntersectingFace(faceOrder, pairs, x)
    decreases |pairs|
  {
    if pairs == [] then {}
    else
      var k := |pairs| - 1;
      var rest := IntersectingFaceSet(faceOrder, pairs[..k]);
      IntersectingPrefix(faceOrder, pairs);
      rest + {OriginalIndex(faceOrder, pairs[k].0), OriginalIndex(faceOrder, pairs[k].1)}
  }

  lemma IntersectingPrefix(faceOrder: seq<nat>, pairs: seq<(nat, nat)>)
    requires pairs != []
    ensures var k := |pairs| - 1;
      forall x :: IsIntersectingFace(faceOrder, pairs, x) <==>
        (IsIntersectingFace(faceOrder, pairs[..k], x)
         || OriginalIndex(faceOrder, pairs[k].0) == x || OriginalIndex(faceOrder, pairs[k].1) == x)
  {
    var k := |pairs| - 1;
    forall x | IsIntersectingFace(faceOrder, pairs[..k], x)
      ensures IsIntersectingFace(faceOrder, pairs, x)
    {
      var i :| 0 <= i < k && (OriginalIndex(faceOrder, pairs[..k][i].0) == x || OriginalIndex(faceOrder, pairs[..k][i].1) == x);
      assert pairs[..k][i] == pairs[i];
    }
    forall x | IsIntersectingFace(faceOrder, pairs, x) && !IsIntersectingFace(faceOrder, pairs[..k], x)
      ensures OriginalIndex(faceOrder, pairs[k].0) == x || OriginalIndex(faceOrder, pairs[k].1) == x
    {
      var i :| 0 <= i < |pairs| && (OriginalIndex(faceOrder, pairs[i].0) == x || OriginalIndex(faceOrder, pairs[i].1) == x);
    }
  }

  function Swapped(pairs: seq<(nat, nat)>): (r: seq<(nat, nat)>)
    ensures |r| == |pairs|
    ensures forall i :: 0 <= i < |pairs| ==> r[i] == (pairs[i].1, pairs[i].0)
  {
    seq(|pairs|, i requires 0 <= i < |pairs| => (pairs[i].1, pairs[i].0))
  }

  /** Which face of a pair is reported first does not matter. */
  lemma IntersectingFacesSymmetric(faceOrder: seq<nat>, pairs: seq<(nat, nat)>)
    ensures IntersectingFaceSet(faceOrder, Swapped(pairs)) == IntersectingFaceSet(faceOrder, pairs)
  {
    var sw := Swapped(pairs);
    forall x
      ensures IsIntersectingFace(faceOrder, sw, x) <==> IsIntersectingFace(faceOrder, pairs, x)
    {
      if IsIntersectingFace(faceOrder, sw, x) {
        var i :| 0 <= i < |sw| && (OriginalIndex(faceOrder, sw[i].0) == x || OriginalIndex(faceOrder, sw[i].1) == x);
        assert pairs[i] == (sw[i].1, sw[i].0);
      }
      if IsIntersectingFace(faceOrder, pairs, x) {
        var i :| 0 <= i < |pairs| && (OriginalIndex(faceOrder, pairs[i].0) == x || OriginalIndex(faceOrder, pairs[i].1) == x);
        assert sw[i] == (pairs[i].1, pairs[i].0);
      }
    }
  }

  /** The CGAL-backed checks, in the order the source runs them. */
  function Rank(t: CheckType): nat {
    match t
    case Watertight => 0
    case NonManifold => 1
    case SelfIntersect => 2
    case Holes => 3
    case DegenerateFaces => 4
    case UVOverlap => 5
    case UVBounds => 5
  }

  predicate IsCgalCheck(t: CheckType) {
    Rank(t) < 5
  }

  /** The Holes walk, as `check` runs it on the report. */
  function HoleWalk(report: CgalReport): Border {
    WalkBorder(report.vertexOrder, report.borderHalfedges)
  }

  /** Check `t` is requested and ends in an exception: its CGAL call throws,
      or, for Holes, the walk reaches a vertex with no successor. */
  predicate Aborts(checks: set<CheckType>, report: CgalReport, walk: Border, t: CheckType) {
    && t in checks && IsCgalCheck(t)
    && (t in report.throwingCalls
        || (t == Holes && |report.borderHalfedges| > 0 && walk.threw))
  }

  /** The check gets as far as `t`: the CGAL mesh was built and no earlier
      check threw. */
  predicate Reaches(checks: set<CheckType>, report: CgalReport, walk: Border, t: CheckType) {
    && !report.meshBuildThrows
    && (Rank(t) > 0 ==> !Aborts(checks, report, walk, Watertight))
    && (Rank(t) > 1 ==> !Aborts(checks, report, walk, NonManifold))
    && (Rank(t) > 2 ==> !Aborts(checks, report, walk, SelfIntersect))
    && (Rank(t) > 3 ==> !Aborts(checks, report, walk, Holes))
    && (Rank(t) > 4 ==> !Aborts(checks, report, walk, DegenerateFaces))
  }

  /** Check `t` ran to completion and wrote its fields. */
  predicate Completes(checks: set<CheckType>, report: CgalReport, walk: Border, t: CheckType) {
    t in checks && Reaches(checks, report, walk, t) && !Aborts(checks, report, walk, t)
  }

  /** The fields of the CGAL-backed checks, each written exactly when its
      check completes; the hole loops are also kept, with a zero count, when
      the walk throws. `walk` is the hole walk of the report. */
  ghost predicate CgalFieldsAsSpecified(checks: set<CheckType>, report: CgalReport, walk: Border, r: CheckResult) {
    && WatertightAsSpecified(checks, report, walk, r)
    && NonManifoldAsSpecified(checks, report, walk, r)
    && SelfIntersectAsSpecified(checks, report, walk, r)
    && HolesAsSpecified(checks, report, walk, r)
    && DegenerateAsSpecified(checks, report, walk, r)
  }

  ghost predicate WatertightAsSpecified(checks: set<CheckType>, report: CgalReport, walk: Border, r: CheckResult) {
    r.isWatertight <==> Completes(checks, report, walk, Watertight) && report.isClosed
  }

  /** The halfedge count, and the ascending list of exactly the faces of the
      non-border halfedges. */
  ghost predicate NonManifoldAsSpecified(checks: set<CheckType>, report: CgalReport, walk: Border, r: CheckResult) {
    if Completes(checks, report, walk, NonManifold) then
      && r.nonManifoldVerticesCount == |report.nonManifoldHalfedges|
      && Increasing(r.nonManifoldFaces)
      && forall x :: x in r.nonManifoldFaces <==> IsNonManifoldFace(report.faceOrder, report.nonManifoldHalfedges, x)
    else
      r.nonManifoldVerticesCount == 0 && r.nonManifoldFaces == []
  }

  /** The pair count, and the ascending list of exactly the faces in some
      intersecting pair. */
  ghost predicate SelfIntersectAsSpecified(checks: set<CheckType>, report: CgalReport, walk: Border, r: CheckResult) {
    if Completes(checks, report, walk, SelfIntersect) then
      && r.selfIntersectionsCount == |report.selfIntersections|
      && Increasing(r.intersectingFaces)
      && forall x :: x in r.intersectingFaces <==> IsIntersectingFace(report.faceOrder, report.selfIntersections, x)
    else
      r.selfIntersectionsCount == 0 && r.intersectingFaces == []
  }

  /** The loops of the walk (none for an empty border) and their number;
      after a throwing walk, its loops so far and a zero count. */
  ghost predicate HolesAsSpecified(checks: set<CheckType>, report: CgalReport, walk: Border, r: CheckResult) {
    && (Completes(checks, report, walk, Holes) ==>
          && r.holesCount == |r.holeLoops|
          && r.holeLoops == (if |report.borderHalfedges| == 0 then [] else walk.loops))
    && (Aborts(checks, report, walk, Holes) && Reaches(checks, report, walk, Holes) && Holes !in report.throwingCalls ==>
          r.holesCount == 0 && r.holeLoops == walk.loops)
    && (!(Holes in checks && Reaches(checks, report, walk, Holes) && Holes !in report.throwingCalls) ==>
          r.holesCount == 0 && r.holeLoops == [])
  }

  ghost predicate DegenerateAsSpecified(checks: set<CheckType>, report: CgalReport, walk: Border, r: CheckResult) {
    r.degenerateFacesCount == if Completes(checks, report, walk, DegenerateFaces) then report.degenerateFacesRemoved else 0
  }

  /** The UV fields, given whether the check got that far (`reached`):
      `has_uvs` is computed then, whatever was requested; each UV count only
      when UVs exist and it was requested. */
  ghost predicate UvFieldsAsSpecified(mesh: Mesh, checks: set<CheckType>, reached: bool, r: CheckResult) {
    && (r.hasUvs <==> reached && HasUvs(mesh))
    && (!(r.hasUvs && UVOverlap in checks) ==> r.overlappingUvIslandsCount == 0 && r.overlappingUvFaces == [])
    && (r.hasUvs && UVOverlap in checks ==>
          && Increasing(r.overlappingUvFaces)
          && (forall g: nat :: g in r.overlappingUvFaces <==> IsCulprit(mesh, g))
          && r.overlappingUvIslandsCount == |r.overlappingUvFaces|)
    && (r.uvsOutOfBoundsCount ==
          if r.hasUvs && UVBounds in checks then |OutOfBoundsAmong(mesh.uvs, |mesh.uvs|)| else 0)
  }

  /** The UV fields as initialised. */
  predicate UvFieldsInitial(r: CheckResult) {
    !r.hasUvs && r.overlappingUvIslandsCount == 0 && r.uvsOutOfBoundsCount == 0 && r.overlappingUvFaces == []
  }

  /** The CGAL-backed part of `check`, from the face numbering to the
      degenerate-face count; `threw` reports an exception, after which
      nothing else runs. The hole walk is a pure function of the report, so
      computing it up front gives the loops the source computes inside the
      Holes branch. */
  method RunCgalChecks(checks: set<CheckType>, report: CgalReport) returns (r: CheckResult, threw: bool)
    requires !report.meshBuildThrows
    ensures CgalFieldsAsSpecified(checks, report, HoleWalk(report), r)
    ensures UvFieldsInitial(r)
    ensures threw <==> !Reaches(checks, report, HoleWalk(report), UVOverlap)
  {
    var walk := HoleWalk(report);
    Stages(checks, report, walk);
    r, threw := RunWatertight(checks, report, walk, InitialResult());
    if threw {
      return;
    }
    r, threw := RunNonManifold(checks, report, walk, r);
    if threw {
      return;
    }
    r, threw := RunSelfIntersect(checks, report, walk, r);
    if threw {
      return;
    }
    r, threw := RunHoles(checks, report, walk, r);
    if threw {
      return;
    }
    r, threw := RunDegenerate(checks, report, walk, r);
  }

  /** Each check is reached exactly when the one before it is reached and
      does not abort; the first three abort exactly when requested and
      their CGAL call throws. */
  lemma Stages(checks: set<CheckType>, report: CgalReport, walk: Border)
    requires !report.meshBuildThrows
    ensures forall t :: Rank(t) < 3 ==> (Aborts(checks, report, walk, t) <==> t in checks && t in report.throwingCalls)
    ensures Reaches(checks, report, walk, Watertight)
    ensures Reaches(checks, report, walk, NonManifold) == !Aborts(checks, report, walk, Watertight)
    ensures Reaches(checks, report, walk, SelfIntersect) == (Reaches(checks, report, walk, NonManifold) && !Aborts(checks, report, walk, NonManifold))
    ensures Reaches(checks, report, walk, Holes) == (Reaches(checks, report, walk, SelfIntersect) && !Aborts(checks, report, walk, SelfIntersect))
    ensures Reaches(checks, report, walk, DegenerateFaces) == (Reaches(checks, report, walk, Holes) && !Aborts(checks, report, walk, Holes))
    ensures Reaches(checks, report, walk, UVOverlap) == (Reaches(checks, report, walk, DegenerateFaces) && !Aborts(checks, report, walk, DegenerateFaces))
  {
  }

  /** The Watertight step: `is_closed`. */
  method RunWatertight(checks: set<CheckType>, report: CgalReport, ghost walk: Border, r0: CheckResult)
    returns (r: CheckResult, threw: bool)
    requires Reaches(checks, report, walk, Watertight)
    requires !r0.isWatertight
    ensures r == r0.(isWatertight := r.isWatertight)
    ensures WatertightAsSpecified(checks, report, walk, r)
    ensures threw == Aborts(checks, report, walk, Watertight)
  {
    r, threw := r0, false;
    if Watertight in checks {
      if Watertight in report.throwingCalls {
        return r, true;
      }
      r := r.(isWatertight := report.isClosed);
    }
  }

  /** The NonManifold step: the halfedges at non-manifold vertices, and the
      set of their faces. */
  method RunNonManifold(checks: set<CheckType>, report: CgalReport, ghost walk: Border, r0: CheckResult)
    returns (r: CheckResult, threw: bool)
    requires Reaches(checks, report, walk, NonManifold)
    requires r0.nonManifoldVerticesCount == 0 && r0.nonManifoldFaces == []
    ensures r == r0.(nonManifoldVerticesCount := r.nonManifoldVerticesCount, nonManifoldFaces := r.nonManifoldFaces)
    ensures NonManifoldAsSpecified(checks, report, walk, r)
    ensures threw == Aborts(checks, report, walk, NonManifold)
  {
    r, threw := r0, false;
    if NonManifold in checks {
      if NonManifold in report.throwingCalls {
        return r, true;
      }
      var hs := report.nonManifoldHalfedges;
      r := r.(nonManifoldVerticesCount := |hs|,
              nonManifoldFaces := SortedElements(NonManifoldFaceSet(report.faceOrder, hs)));
    }
  }

  /** The SelfIntersect step: the intersecting pairs, and the set of their
      faces. */
  method RunSelfIntersect(checks: set<CheckType>, report: CgalReport, ghost walk: Border, r0: CheckResult)
    returns (r: CheckResult, threw: bool)
    requires Reaches(checks, report, walk, SelfIntersect)
    requires r0.selfIntersectionsCount == 0 && r0.intersectingFaces == []
    ensures r == r0.(selfIntersectionsCount := r.selfIntersectionsCount, intersectingFaces := r.intersectingFaces)
    ensures SelfIntersectAsSpecified(checks, report, walk, r)
    ensures threw == Aborts(checks, report, walk, SelfIntersect)
  {
    r, threw := r0, false;
    if SelfIntersect in checks {
      if SelfIntersect in report.throwingCalls {
        return r, true;
      }
      var pairs := report.selfIntersections;
      r := r.(selfIntersectionsCount := |pairs|,
              intersectingFaces := SortedElements(IntersectingFaceSet(report.faceOrder, pairs)));
    }
  }

  /** The Holes step: the border walk `walk`, when there is a border. */
  method RunHoles(checks: set<CheckType>, report: CgalReport, walk: Border, r0: CheckResult)
    returns (r: CheckResult, threw: bool)
    requires Reaches(checks, report, walk, Holes)
    requires r0.holesCount == 0 && r0.holeLoops == []
    ensures r == r0.(holesCount := r.holesCount, holeLoops := r.holeLoops)
    ensures HolesAsSpecified(checks, report, walk, r)
    ensures threw == Aborts(checks, report, walk, Holes)
  {
    r, threw := r0, false;
    if Holes in checks {
      if Holes in report.throwingCalls {
        return r, true;
      }
      r := r.(holeLoops := []);
      if |report.borderHalfedges| > 0 {
        r := r.(holeLoops := walk.loops);
        if walk.threw {
          return r, true;
        }
      }
      r := r.(holesCount := |r.holeLoops|);
    }
  }

  /** The DegenerateFaces step: `remove_degenerate_faces`. */
  method RunDegenerate(checks: set<CheckType>, report: CgalReport, ghost walk: Border, r0: CheckResult)
    returns (r: CheckResult, threw: bool)
    requires Reaches(checks, report, walk, DegenerateFaces)
    requires r0.degenerateFacesCount == 0
    ensures r == r0.(degenerateFacesCount := r.degenerateFacesCount)
    ensures DegenerateAsSpecified(checks, report, walk, r)
    ensures threw == Aborts(checks, report, walk, DegenerateFaces)
  {
    r, threw := r0, false;
    if DegenerateFaces in checks {
      if DegenerateFaces in report.throwingCalls {
        return r, true;
      }
      r := r.(degenerateFacesCount := report.degenerateFacesRemoved);
    }
  }

  /** The UV step of `check`: `has_uvs` always, then each requested count
      when UVs exist. Only the four UV fields change. */
  method RunUvChecks(mesh: Mesh, checks: set<CheckType>, r0: CheckResult) returns (r: CheckResult)
    requires HasUvs(mesh) && UVOverlap in checks ==> UvIndexed(mesh)
    requires UvFieldsInitial(r0)
    ensures r == r0.(hasUvs := r.hasUvs, overlappingUvIslandsCount := r.overlappingUvIslandsCount,
                     uvsOutOfBoundsCount := r.uvsOutOfBoundsCount, overlappingUvFaces := r.overlappingUvFaces)
    ensures UvFieldsAsSpecified(mesh, checks, true, r)
  {
    r := r0.(hasUvs := HasUvs(mesh));
    if r.hasUvs {
      if UVOverlap in checks {
        var count, faces := CountOverlappingUvIslands(mesh, r.overlappingUvFaces);
        r := r.(overlappingUvIslandsCount := count, overlappingUvFaces := faces);
      }
      if UVBounds in checks {
        var count := CountUvsOutOfBounds(mesh);
        r := r.(uvsOutOfBoundsCount := count);
      }
    }
  }

  /** `MeshChecker::check`. A throw ends the run and the outer `catch`
      returns the result as filled in so far. A failure inside soup repair or
      orientation is caught on the spot and processing goes on, so
      `soupRepairThrows` plays no part. */
  method Check(mesh: Mesh, checks: set<CheckType>, soupRepairThrows: bool, report: CgalReport) returns (result: CheckResult)
    requires |mesh.vertexIndices| % 3 == 0
    requires HasUvs(mesh) && UVOverlap in checks ==> UvIndexed(mesh)
    ensures CgalFieldsAsSpecified(checks, report, HoleWalk(report), result)
    ensures UvFieldsAsSpecified(mesh, checks, Reaches(checks, report, HoleWalk(report), UVOverlap), result)
  {
    result := InitialResult();
    var polygons := Polygons(mesh.vertexIndices);
    if report.meshBuildThrows {
      return;
    }
    var threw;
    result, threw := RunCgalChecks(checks, report);
    if threw {
      return;
    }
    result := RunUvChecks(mesh, checks, result);
  }

  /** The specification of `check` fixes the result completely. As it does
      not mention `soupRepairThrows`, a throw inside soup repair leaves the
      result as it would have been without one. */
  lemma ResultIsDetermined(mesh: Mesh, checks: set<CheckType>, report: CgalReport, walk: Border, reached: bool, r1: CheckResult, r2: CheckResult)
    requires CgalFieldsAsSpecified(checks, report, walk, r1) && UvFieldsAsSpecified(mesh, checks, reached, r1)
    requires CgalFieldsAsSpecified(checks, report, walk, r2) && UvFieldsAsSpecified(mesh, checks, reached, r2)
    ensures r1 == r2
  {
    if Completes(checks, report, walk, NonManifold) {
      IncreasingIsUnique(r1.nonManifoldFaces, r2.nonManifoldFaces);
    }
    if Completes(checks, report, walk, SelfIntersect) {
      IncreasingIsUnique(r1.intersectingFaces, r2.intersectingFaces);
    }
    if r1.hasUvs && UVOverlap in checks {
      IncreasingIsUnique(r1.overlappingUvFaces, r2.overlappingUvFaces);
    }
  }

  /** When every border halfedge's target is itself the source of a border
      halfedge (the border is a union of closed loops, as on a valid
      halfedge mesh), the walk never throws: a requested Holes check that
      is reached and whose CGAL call succeeds completes. */
  lemma ClosedBorderCompletes(checks: set<CheckType>, report: CgalReport)
    requires TargetsClosed(SuccessorMap(report.borderHalfedges))
    requires Holes in checks && Holes !in report.throwingCalls && Reaches(checks, report, HoleWalk(report), Holes)
    ensures Completes(checks, report, HoleWalk(report), Holes)
  {
    var numbering := LastPositions(report.vertexOrder);
    ClosedBorderNeverThrows(SuccessorMap(report.borderHalfedges), numbering, SortedElements(numbering.Keys), {});
  }
}
