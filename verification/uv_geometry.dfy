/**
 The point-in-triangle test the UV rasteriser uses (src/UvChecker.cpp):
 three half-plane signs, accepted unless they include both a negative and a
 positive value. Arithmetic is exact, so a point on an edge or at a vertex
 (a zero sign) is accepted.
 */
module UvGeometry {
  import opened MeshModel

  /** `sign(p1, p2, p3)`: twice the signed area of the triangle p3, p1, p2. */
  function Sign(p1: Vec2, p2: Vec2, p3: Vec2): real {
    (p1.x - p3.x) * (p2.y - p3.y) - (p2.x - p3.x) * (p1.y - p3.y)
  }

  /** `is_inside(p1, p2, p3, test_p)`. */
  predicate IsInside(p1: Vec2, p2: Vec2, p3: Vec2, t: Vec2) {
    var d1 := Sign(t, p1, p2);
    var d2 := Sign(t, p2, p3);
    var d3 := Sign(t, p3, p1);
    var hasNeg := d1 < 0.0 || d2 < 0.0 || d3 < 0.0;
    var hasPos := d1 > 0.0 || d2 > 0.0 || d3 > 0.0;
    !(hasNeg && hasPos)
  }

  /** Twice the signed area of the triangle a, b, c (positive when
      counter-clockwise): an independent statement of what `Sign` measures. */
  function Orientation(a: Vec2, b: Vec2, c: Vec2): real {
    (b.x - a.x) * (c.y - a.y) - (b.y - a.y) * (c.x - a.x)
  }

  /** The sign is the orientation of the triangle; rotating its arguments
      keeps it and swapping two of them negates it. */
  lemma SignIsOrientation(p1: Vec2, p2: Vec2, p3: Vec2)
    ensures Sign(p1, p2, p3) == Orientation(p1, p2, p3)
    ensures Sign(p1, p2, p3) == Sign(p2, p3, p1)
    ensures Sign(p2, p1, p3) == -Sign(p1, p2, p3)
  {
  }

  /** The answer does not depend on which vertex is listed first. */
  lemma InsideUnderRotation(p1: Vec2, p2: Vec2, p3: Vec2, t: Vec2)
    ensures IsInside(p2, p3, p1, t) == IsInside(p1, p2, p3, t)
  {
  }

  /** Nor on the winding direction. */
  lemma InsideUnderReversal(p1: Vec2, p2: Vec2, p3: Vec2, t: Vec2)
    ensures IsInside(p3, p2, p1, t) == IsInside(p1, p2, p3, t)
  {
    SignIsOrientation(t, p3, p2);
    SignIsOrientation(t, p2, p1);
    SignIsOrientation(t, p1, p3);
    SignIsOrientation(p3, t, p2);
    SignIsOrientation(p2, t, p1);
    SignIsOrientation(p1, t, p3);
  }

  /** Each vertex passes the test. */
  lemma VerticesAreInside(p1: Vec2, p2: Vec2, p3: Vec2)
    ensures IsInside(p1, p2, p3, p1)
    ensures IsInside(p1, p2, p3, p2)
    ensures IsInside(p1, p2, p3, p3)
  {
  }

  function Combine(a: real, p1: Vec2, b: real, p2: Vec2, c: real, p3: Vec2): Vec2 {
    Vec2(a * p1.x + b * p2.x + c * p3.x, a * p1.y + b * p2.y + c * p3.y)
  }

  /** At a point with barycentric weights a, b, c the three signs are the
      triangle's orientation scaled by c, a and b. */
  lemma SignsOfCombination(p1: Vec2, p2: Vec2, p3: Vec2, a: real, b: real, c: real)
    requires a + b + c == 1.0
    ensures var t := Combine(a, p1, b, p2, c, p3);
      && Sign(t, p1, p2) == c * Orientation(p1, p2, p3)
      && Sign(t, p2, p3) == a * Orientation(p1, p2, p3)
      && Sign(t, p3, p1) == b * Orientation(p1, p2, p3)
  {
    var t := Combine(a, p1, b, p2, c, p3);
    var o := Orientation(p1, p2, p3);
    assert a == 1.0 - b - c;
    assert Sign(t, p1, p2) == c * o;
    assert Sign(t, p2, p3) == a * o;
    assert Sign(t, p3, p1) == b * o;
  }

  lemma ScaledSign(w: real, o: real)
    requires w >= 0.0
    ensures o >= 0.0 ==> w * o >= 0.0
    ensures o <= 0.0 ==> w * o <= 0.0
  {
  }

  /** Every convex combination of the vertices (the closed triangle, edges
      included) is accepted, whatever the triangle's shape. */
  lemma ConvexCombinationIsInside(p1: Vec2, p2: Vec2, p3: Vec2, a: real, b: real, c: real)
    requires a >= 0.0 && b >= 0.0 && c >= 0.0 && a + b + c == 1.0
    ensures IsInside(p1, p2, p3, Combine(a, p1, b, p2, c, p3))
  {
    SignsOfCombination(p1, p2, p3, a, b, c);
    var o := Orientation(p1, p2, p3);
    ScaledSign(a, o);
    ScaledSign(b, o);
    ScaledSign(c, o);
  }

  /** The three signs of any point add up to the triangle's orientation. */
  lemma SignsSumToOrientation(p1: Vec2, p2: Vec2, p3: Vec2, t: Vec2)
    ensures Sign(t, p1, p2) + Sign(t, p2, p3) + Sign(t, p3, p1) == Orientation(p1, p2, p3)
  {
  }

  /** Weighting the vertices by the signs gives the point back, scaled by the
      orientation. */
  lemma SignsRecoverPoint(p1: Vec2, p2: Vec2, p3: Vec2, t: Vec2)
    ensures t.x * Orientation(p1, p2, p3)
      == Sign(t, p2, p3) * p1.x + Sign(t, p3, p1) * p2.x + Sign(t, p1, p2) * p3.x
    ensures t.y * Orientation(p1, p2, p3)
      == Sign(t, p2, p3) * p1.y + Sign(t, p3, p1) * p2.y + Sign(t, p1, p2) * p3.y
  {
  }

  lemma DivideOut(v: real, o: real, w1: real, x1: real, w2: real, x2: real, w3: real, x3: real)
    requires o != 0.0
    requires v * o == w1 * x1 + w2 * x2 + w3 * x3
    ensures v == (w1 / o) * x1 + (w2 / o) * x2 + (w3 / o) * x3
  {
    assert (w1 / o) * x1 + (w2 / o) * x2 + (w3 / o) * x3 == (w1 * x1 + w2 * x2 + w3 * x3) / o;
  }

  lemma QuotientsSumToOne(x: real, y: real, z: real, o: real)
    requires o != 0.0 && x + y + z == o
    ensures x / o + y / o + z / o == 1.0
  {
    assert x / o + y / o + z / o == (x + y + z) / o;
  }

  lemma SameSignQuotient(d: real, o: real)
    requires o != 0.0
    requires (o > 0.0 && d >= 0.0) || (o < 0.0 && d <= 0.0)
    ensures d / o >= 0.0
  {
  }

  /** Conversely, for a triangle of non-zero area, an accepted point has
      non-negative barycentric weights: the test accepts exactly the closed
      triangle. */
  lemma InsideIsConvexCombination(p1: Vec2, p2: Vec2, p3: Vec2, t: Vec2)
    requires Orientation(p1, p2, p3) != 0.0
    requires IsInside(p1, p2, p3, t)
    ensures exists a: real, b: real, c: real ::
      a >= 0.0 && b >= 0.0 && c >= 0.0 && a + b + c == 1.0 && t == Combine(a, p1, b, p2, c, p3)
  {
    var o := Orientation(p1, p2, p3);
    var d1 := Sign(t, p1, p2);
    var d2 := Sign(t, p2, p3);
    var d3 := Sign(t, p3, p1);
    SignsSumToOrientation(p1, p2, p3, t);
    SignsRecoverPoint(p1, p2, p3, t);
    var a, b, c := d2 / o, d3 / o, d1 / o;
    QuotientsSumToOne(d2, d3, d1, o);
    DivideOut(t.x, o, d2, p1.x, d3, p2.x, d1, p3.x);
    DivideOut(t.y, o, d2, p1.y, d3, p2.y, d1, p3.y);
    assert t == Combine(a, p1, b, p2, c, p3);
    SameSignQuotient(d1, o);
    SameSignQuotient(d2, o);
    SameSignQuotient(d3, o);
  }
}
