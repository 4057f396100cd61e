/**
 * The small slice of the geometry library the polygon-clipping wrapper relies on:
 * points, polygons (contours), triangles and axis-aligned boxes. Only equality and
 * ordering of coordinates matter, so coordinates are exact reals.
 */
module Geometry {

  /** A 2D point (V2d). */
  datatype V2d = V2d(x: real, y: real)

  /** A contour: an implicitly closed sequence of points (Polygon2d). */
  datatype Polygon2d = Polygon2d(points: seq<V2d>)

  /** A triangle; the order of its corners is its winding. */
  datatype Triangle2d = Triangle2d(p0: V2d, p1: V2d, p2: V2d)

  /**
   * An axis-aligned box (Box2d). `Invalid` is the empty box the library represents
   * with an inverted min/max pair: every extension of it yields the other operand.
   */
  datatype Box2d = Invalid | Box(min: V2d, max: V2d)

  function Min(a: real, b: real): real { if a <= b then a else b }
  function Max(a: real, b: real): real { if a <= b then b else a }

  predicate Contains(b: Box2d, v: V2d) {
    b.Box? && b.min.x <= v.x <= b.max.x && b.min.y <= v.y <= b.max.y
  }

  /** Box2d.ExtendBy(Box2d): the smallest box covering both operands. */
  function ExtendBy(a: Box2d, b: Box2d): (r: Box2d)
    ensures r == Invalid <==> a == Invalid && b == Invalid
    ensures forall v :: Contains(a, v) || Contains(b, v) ==> Contains(r, v)
  {
    match (a, b)
    case (Invalid, _) => b
    case (_, Invalid) => a
    case (Box(lo1, hi1), Box(lo2, hi2)) =>
      Box(V2d(Min(lo1.x, lo2.x), Min(lo1.y, lo2.y)), V2d(Max(hi1.x, hi2.x), Max(hi1.y, hi2.y)))
  }

  /** Polygon2d.BoundingBox2d: the box of a sequence of points, `Invalid` when there is none. */
  function BoundsOf(pts: seq<V2d>): (r: Box2d)
    ensures r == Invalid <==> pts == []
    ensures forall i :: 0 <= i < |pts| ==> Contains(r, pts[i])
  {
    if pts == [] then Invalid
    else
      var last := pts[|pts| - 1];
      var r0 := BoundsOf(pts[..|pts| - 1]);
      assert forall i :: 0 <= i < |pts| - 1 ==> pts[i] == pts[..|pts| - 1][i];
      ExtendBy(r0, Box(last, last))
  }

  /** Every side of the bounding box of a non-empty point sequence touches one of its points. */
  lemma {:induction false} BoundsOfTight(pts: seq<V2d>)
    requires pts != []
    ensures exists i :: 0 <= i < |pts| && pts[i].x == BoundsOf(pts).min.x
    ensures exists i :: 0 <= i < |pts| && pts[i].y == BoundsOf(pts).min.y
    ensures exists i :: 0 <= i < |pts| && pts[i].x == BoundsOf(pts).max.x
    ensures exists i :: 0 <= i < |pts| && pts[i].y == BoundsOf(pts).max.y
  {
    var n := |pts|;
    var init := pts[..n - 1];
    if init == [] {
      assert BoundsOf(pts) == Box(pts[0], pts[0]);
    } else {
      BoundsOfTight(init);
      var lo := BoundsOf(init).min;
      var hi := BoundsOf(init).max;
      var a :| 0 <= a < |init| && init[a].x == lo.x;
      var b :| 0 <= b < |init| && init[b].y == lo.y;
      var c :| 0 <= c < |init| && init[c].x == hi.x;
      var d :| 0 <= d < |init| && init[d].y == hi.y;
      assert pts[a] == init[a] && pts[b] == init[b] && pts[c] == init[c] && pts[d] == init[d];
      var r := BoundsOf(pts);
      assert r.min.x == pts[a].x || r.min.x == pts[n - 1].x;
      assert r.min.y == pts[b].y || r.min.y == pts[n - 1].y;
      assert r.max.x == pts[c].x || r.max.x == pts[n - 1].x;
      assert r.max.y == pts[d].y || r.max.y == pts[n - 1].y;
    }
  }

  /** ExtendBy is associative, so boxes can be merged in any grouping. */
  lemma ExtendByAssociative(a: Box2d, b: Box2d, c: Box2d)
    ensures ExtendBy(ExtendBy(a, b), c) == ExtendBy(a, ExtendBy(b, c))
  {
  }

  /** The box of a concatenation is the extension of the two boxes. */
  lemma {:induction false} BoundsOfConcat(a: seq<V2d>, b: seq<V2d>)
    ensures BoundsOf(a + b) == ExtendBy(BoundsOf(a), BoundsOf(b))
  {
    if b == [] {
      assert a + b == a;
    } else {
      var n := |b|;
      var last := b[n - 1];
      assert (a + b)[..|a + b| - 1] == a + b[..n - 1];
      BoundsOfConcat(a, b[..n - 1]);
      ExtendByAssociative(BoundsOf(a), BoundsOf(b[..n - 1]), Box(last, last));
    }
  }
}
