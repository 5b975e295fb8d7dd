/**
 The record a mesh check returns, and the set of check kinds a caller may
 request (src/MeshChecker.h). Counts are the header's `int` fields; the face
 lists are `std::vector<unsigned int>`.
 */
module CheckResults {

  /** The seven independently selectable analyses. */
  datatype CheckType =
    | Watertight
    | NonManifold
    | SelfIntersect
    | Holes
    | DegenerateFaces
    | UVOverlap
    | UVBounds

  /** Every kind, written out once. */
  const AllCheckTypes: set<CheckType> :=
    {Watertight, NonManifold, SelfIntersect, Holes, DegenerateFaces, UVOverlap, UVBounds}

  lemma CheckTypesAreSevenDistinct()
    ensures forall t: CheckType :: t in AllCheckTypes
    ensures |AllCheckTypes| == 7
  {
    forall t: CheckType
      ensures t in AllCheckTypes
    {
      match t
      case Watertight =>
      case NonManifold =>
      case SelfIntersect =>
      case Holes =>
      case DegenerateFaces =>
      case UVOverlap =>
      case UVBounds =>
    }
    assert AllCheckTypes - {UVBounds} == {Watertight, NonManifold, SelfIntersect, Holes, DegenerateFaces, UVOverlap};
    assert AllCheckTypes - {UVBounds, UVOverlap} == {Watertight, NonManifold, SelfIntersect, Holes, DegenerateFaces};
  }

  datatype CheckResult = CheckResult(
    isWatertight: bool,
    nonManifoldVerticesCount: int,
    selfIntersectionsCount: int,
    holesCount: int,
    degenerateFacesCount: int,
    hasUvs: bool,
    overlappingUvIslandsCount: int,
    uvsOutOfBoundsCount: int,
    intersectingFaces: seq<nat>,
    nonManifoldFaces: seq<nat>,
    holeLoops: seq<seq<nat>>,
    overlappingUvFaces: seq<nat>)

  /** The empty state: both flags down, every count zero, every list empty. */
  predicate IsCleared(r: CheckResult) {
    && !r.isWatertight
    && !r.hasUvs
    && r.nonManifoldVerticesCount == 0
    && r.selfIntersectionsCount == 0
    && r.holesCount == 0
    && r.degenerateFacesCount == 0
    && r.overlappingUvIslandsCount == 0
    && r.uvsOutOfBoundsCount == 0
    && r.intersectingFaces == []
    && r.nonManifoldFaces == []
    && r.holeLoops == []
    && r.overlappingUvFaces == []
  }

  /** `CheckResult::clear()`: one reset per field, in the header's order. */
  function Clear(r: CheckResult): (c: CheckResult)
    ensures IsCleared(c)
  {
    r.(isWatertight := false,
       nonManifoldVerticesCount := 0,
       selfIntersectionsCount := 0,
       holesCount := 0,
       degenerateFacesCount := 0,
       hasUvs := false,
       overlappingUvIslandsCount := 0,
       uvsOutOfBoundsCount := 0,
       intersectingFaces := [],
       nonManifoldFaces := [],
       holeLoops := [],
       overlappingUvFaces := [])
  }

  /** Only one record is cleared, so what `clear()` leaves behind does not
      depend on what was there before. */
  lemma ClearedIsUnique(a: CheckResult, b: CheckResult)
    requires IsCleared(a) && IsCleared(b)
    ensures a == b
  {
  }

  lemma ClearForgetsPriorState(a: CheckResult, b: CheckResult)
    ensures Clear(a) == Clear(b)
  {
    ClearedIsUnique(Clear(a), Clear(b));
  }

  lemma ClearIsIdempotent(r: CheckResult)
    ensures Clear(Clear(r)) == Clear(r)
  {
    ClearForgetsPriorState(Clear(r), r);
  }
}
