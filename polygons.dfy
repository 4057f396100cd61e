/**
 * The managed polygon set (GpcPolygon): contours paired by index with hole flags,
 * its constructors, and the queries that only read it.
 */
module Polygons {
  import opened Geometry

  /**
   * A polygon set. The two arrays of the source are independent fields, so their
   * lengths may differ; `WellFormed` states the pairing every producer keeps.
   */
  datatype GpcPolygon = GpcPolygon(hole: seq<bool>, contour: seq<Polygon2d>)

  predicate WellFormed(p: GpcPolygon) {
    |p.hole| == |p.contour|
  }

  /** GpcPolygon(V2d[] polygon, bool isHole = false): one contour built from its points. */
  function FromPoints(points: seq<V2d>, isHole: bool := false): (r: GpcPolygon)
    ensures WellFormed(r) && |r.contour| == 1
    ensures r.contour[0].points == points && r.hole[0] == isHole
  {
    GpcPolygon([isHole], [Polygon2d(points)])
  }

  /** GpcPolygon(Polygon2d polygon, bool isHole = false): one existing contour. */
  function FromPolygon(polygon: Polygon2d, isHole: bool := false): (r: GpcPolygon)
    ensures WellFormed(r) && |r.contour| == 1
    ensures r.contour[0] == polygon && r.hole[0] == isHole
  {
    GpcPolygon([isHole], [polygon])
  }

  /** GpcPolygon.Empty: no contours at all. */
  function Empty(): (r: GpcPolygon)
    ensures WellFormed(r) && |r.contour| == 0
  {
    GpcPolygon([], [])
  }

  /**
   * Among the first `n` flags, every flag that is not a hole has a contour at its index.
   * Holes need none: the loops over the flags read a contour only for a non-hole flag.
   */
  predicate ContoursPresent(hole: seq<bool>, contour: seq<Polygon2d>, n: nat) {
    n <= |hole| && forall i :: 0 <= i < n && !hole[i] ==> i < |contour|
  }

  /** The non-hole contours among the first `n`, in their original order. */
  function NonHoleContours(hole: seq<bool>, contour: seq<Polygon2d>, n: nat): (r: seq<Polygon2d>)
    requires ContoursPresent(hole, contour, n)
    ensures |r| <= n
  {
    if n == 0 then []
    else NonHoleContours(hole, contour, n - 1) + (if hole[n - 1] then [] else [contour[n - 1]])
  }

  /** All points of a sequence of contours, contour after contour. */
  function AllPoints(cs: seq<Polygon2d>): seq<V2d> {
    if cs == [] then [] else AllPoints(cs[..|cs| - 1]) + cs[|cs| - 1].points
  }

  // ---------------------------------------------------------------------------
  // Bounding box
  // ---------------------------------------------------------------------------

  /**
   * The reference bounding box of a polygon set: the box of every point that lies on
   * a non-hole contour. The loop runs over the hole flags and reads the contour of the
   * same index only when the flag is not a hole, so every non-hole flag needs a contour.
   */
  function BoundingBox(p: GpcPolygon): Box2d
    requires ContoursPresent(p.hole, p.contour, |p.hole|)
  {
    BoundsOf(AllPoints(NonHoleContours(p.hole, p.contour, |p.hole|)))
  }

  /** GpcPolygon.ComputeBoundingBox2d: extend an invalid box by every non-hole contour's box. */
  method ComputeBoundingBox2d(p: GpcPolygon) returns (box: Box2d)
    requires ContoursPresent(p.hole, p.contour, |p.hole|)
    ensures box == BoundingBox(p)
  {
    box := Invalid;
    for i := 0 to |p.hole|
      invariant box == BoundsOf(AllPoints(NonHoleContours(p.hole, p.contour, i)))
    {
      BoundingBoxStep(p.hole, p.contour, i);
      if !p.hole[i] {
        box := ExtendBy(box, BoundsOf(p.contour[i].points));
      }
    }
  }

  /** One step of the loop above: a hole leaves the box alone, a contour extends it by its own box. */
  lemma BoundingBoxStep(hole: seq<bool>, contour: seq<Polygon2d>, i: nat)
    requires i < |hole| && ContoursPresent(hole, contour, i + 1)
    ensures var before := BoundsOf(AllPoints(NonHoleContours(hole, contour, i)));
            BoundsOf(AllPoints(NonHoleContours(hole, contour, i + 1))) ==
            if hole[i] then before else ExtendBy(before, BoundsOf(contour[i].points))
  {
    var kept := NonHoleContours(hole, contour, i);
    if hole[i] {
      assert NonHoleContours(hole, contour, i + 1) == kept + [];
      assert kept + [] == kept;
    } else {
      assert NonHoleContours(hole, contour, i + 1) == kept + [contour[i]];
      AllPointsConcat(kept, [contour[i]]);
      assert [contour[i]][..0] == [];
      assert AllPoints([contour[i]]) == contour[i].points;
      BoundsOfConcat(AllPoints(kept), contour[i].points);
    }
  }

  lemma {:induction false} AllPointsConcat(a: seq<Polygon2d>, b: seq<Polygon2d>)
    ensures AllPoints(a + b) == AllPoints(a) + AllPoints(b)
  {
    if b == [] {
      assert a + b == a;
    } else {
      assert (a + b)[..|a + b| - 1] == a + b[..|b| - 1];
      AllPointsConcat(a, b[..|b| - 1]);
    }
  }

  /** A point lies in AllPoints exactly when it lies on one of the contours. */
  lemma {:induction false} AllPointsMember(cs: seq<Polygon2d>, v: V2d)
    ensures v in AllPoints(cs) <==> exists k :: 0 <= k < |cs| && v in cs[k].points
  {
    if cs != [] {
      var init := cs[..|cs| - 1];
      AllPointsMember(init, v);
      if v in AllPoints(init) {
        var k :| 0 <= k < |init| && v in init[k].points;
        assert cs[k] == init[k];
      }
      if exists k :: 0 <= k < |cs| && v in cs[k].points {
        var k :| 0 <= k < |cs| && v in cs[k].points;
        if k < |cs| - 1 { assert init[k] == cs[k]; }
      }
    }
  }

  /** The contour at a non-hole index is one of NonHoleContours, and nothing else is. */
  lemma {:induction false} NonHoleContoursMember(hole: seq<bool>, contour: seq<Polygon2d>, n: nat, c: Polygon2d)
    requires ContoursPresent(hole, contour, n)
    ensures c in NonHoleContours(hole, contour, n) <==> exists i :: 0 <= i < n && !hole[i] && contour[i] == c
  {
    if n > 0 {
      NonHoleContoursMember(hole, contour, n - 1, c);
    }
  }

  /** Every point of every non-hole contour lies inside the bounding box. */
  lemma BoundingBoxCovers(p: GpcPolygon, i: int, j: int)
    requires ContoursPresent(p.hole, p.contour, |p.hole|)
    requires 0 <= i < |p.hole| && !p.hole[i] && 0 <= j < |p.contour[i].points|
    ensures Contains(BoundingBox(p), p.contour[i].points[j])
  {
    var kept := NonHoleContours(p.hole, p.contour, |p.hole|);
    NonHoleContoursMember(p.hole, p.contour, |p.hole|, p.contour[i]);
    var k :| 0 <= k < |kept| && kept[k] == p.contour[i];
    AllPointsMember(kept, p.contour[i].points[j]);
  }

  /**
   * The box is Invalid exactly when no non-hole contour has a point: in particular
   * for the empty set and for a set made only of holes.
   */
  lemma BoundingBoxInvalid(p: GpcPolygon)
    requires ContoursPresent(p.hole, p.contour, |p.hole|)
    ensures BoundingBox(p) == Invalid <==>
            forall i :: 0 <= i < |p.hole| && !p.hole[i] ==> p.contour[i].points == []
  {
    var kept := NonHoleContours(p.hole, p.contour, |p.hole|);
    if BoundingBox(p) == Invalid {
      forall i | 0 <= i < |p.hole| && !p.hole[i] ensures p.contour[i].points == [] {
        if p.contour[i].points != [] {
          BoundingBoxCovers(p, i, 0);
        }
      }
    } else {
      var v := AllPoints(kept)[0];
      AllPointsMember(kept, v);
      var k :| 0 <= k < |kept| && v in kept[k].points;
      NonHoleContoursMember(p.hole, p.contour, |p.hole|, kept[k]);
    }
  }

  /** Two sets with the same flags that agree on their non-hole contours have the same box. */
  lemma {:induction false} HolesDoNotChangeBox(p: GpcPolygon, q: GpcPolygon)
    requires ContoursPresent(p.hole, p.contour, |p.hole|) && ContoursPresent(q.hole, q.contour, |q.hole|)
    requires p.hole == q.hole
    requires forall i :: 0 <= i < |p.hole| && !p.hole[i] ==> p.contour[i] == q.contour[i]
    ensures BoundingBox(p) == BoundingBox(q)
  {
    SameNonHoleContours(p.hole, p.contour, q.contour, |p.hole|);
  }

  lemma {:induction false} SameNonHoleContours(hole: seq<bool>, a: seq<Polygon2d>, b: seq<Polygon2d>, n: nat)
    requires ContoursPresent(hole, a, n) && ContoursPresent(hole, b, n)
    requires forall i :: 0 <= i < n && !hole[i] ==> a[i] == b[i]
    ensures NonHoleContours(hole, a, n) == NonHoleContours(hole, b, n)
  {
    if n > 0 {
      SameNonHoleContours(hole, a, b, n - 1);
    }
  }

  /** Appending a hole contour leaves the box unchanged. */
  lemma AddingHoleKeepsBox(p: GpcPolygon, c: Polygon2d)
    requires WellFormed(p)
    ensures BoundingBox(GpcPolygon(p.hole + [true], p.contour + [c])) == BoundingBox(p)
  {
    var q := GpcPolygon(p.hole + [true], p.contour + [c]);
    var n := |p.hole|;
    assert q.hole[..n] == p.hole == p.hole[..n];
    SameNonHoleContours(p.hole, p.contour, q.contour, n);
    PrefixNonHoleContours(p.hole, q.hole, q.contour, n);
    assert NonHoleContours(q.hole, q.contour, n + 1) == NonHoleContours(q.hole, q.contour, n);
  }

  lemma {:induction false} PrefixNonHoleContours(hole: seq<bool>, hole': seq<bool>, contour: seq<Polygon2d>, n: nat)
    requires n <= |hole| && n <= |hole'| && n <= |contour|
    requires hole[..n] == hole'[..n]
    ensures NonHoleContours(hole, contour, n) == NonHoleContours(hole', contour, n)
  {
    if n > 0 {
      assert hole[..n - 1] == hole[..n][..n - 1];
      assert hole'[..n - 1] == hole'[..n][..n - 1];
      assert hole[n - 1] == hole[..n][n - 1];
      assert hole'[n - 1] == hole'[..n][n - 1];
      PrefixNonHoleContours(hole, hole', contour, n - 1);
    }
  }

  /** A single contour that is not a hole has exactly its own box; a single hole has none. */
  lemma SingleContourBox(polygon: Polygon2d, isHole: bool)
    ensures BoundingBox(FromPolygon(polygon, isHole)) == if isHole then Invalid else BoundsOf(polygon.points)
  {
    var p := FromPolygon(polygon, isHole);
    assert NonHoleContours(p.hole, p.contour, 0) == [];
    assert [polygon][..0] == [];
    assert AllPoints([polygon]) == polygon.points;
    assert NonHoleContours(p.hole, p.contour, 1) == if isHole then [] else [polygon];
  }

  /**
   * Flags beyond the last contour are accepted as long as they are holes: one boundary
   * contour followed by a dangling hole flag has that contour's box, and a lone hole flag
   * with no contour at all has none.
   */
  lemma DanglingHoleFlags(c: Polygon2d)
    ensures ContoursPresent([false, true], [c], 2)
    ensures BoundingBox(GpcPolygon([false, true], [c])) == BoundsOf(c.points)
    ensures ContoursPresent([true], [], 1)
    ensures BoundingBox(GpcPolygon([true], [])) == Invalid
  {
    var p := GpcPolygon([false, true], [c]);
    assert NonHoleContours(p.hole, p.contour, 1) == [c];
    assert [c][..0] == [];
    assert AllPoints([c]) == c.points;
  }

  /** The empty set has the invalid box. */
  lemma EmptyBox()
    ensures BoundingBox(Empty()) == Invalid
  {
  }

  /**
   * The example of a filled square with a hole outside it: the box is the square's,
   * the hole's extent does not appear.
   */
  lemma SquareWithOutsideHoleBox()
    ensures BoundingBox(GpcPolygon([false, true],
              [Polygon2d([V2d(0.0, 0.0), V2d(4.0, 0.0), V2d(4.0, 4.0), V2d(0.0, 4.0)]),
               Polygon2d([V2d(10.0, 10.0), V2d(12.0, 10.0), V2d(12.0, 12.0), V2d(10.0, 12.0)])]))
            == Box(V2d(0.0, 0.0), V2d(4.0, 4.0))
  {
    var square := [V2d(0.0, 0.0), V2d(4.0, 0.0), V2d(4.0, 4.0), V2d(0.0, 4.0)];
    var outside := Polygon2d([V2d(10.0, 10.0), V2d(12.0, 10.0), V2d(12.0, 12.0), V2d(10.0, 12.0)]);
    var filled := FromPolygon(Polygon2d(square));
    AddingHoleKeepsBox(filled, outside);
    SingleContourBox(Polygon2d(square), false);
    assert GpcPolygon(filled.hole + [true], filled.contour + [outside]) ==
           GpcPolygon([false, true], [Polygon2d(square), outside]);
    assert square[..1] == [V2d(0.0, 0.0)] && square[..1][..0] == [];
    assert BoundsOf(square[..1]) == Box(V2d(0.0, 0.0), V2d(0.0, 0.0));
    assert square[..2][..1] == square[..1];
    assert BoundsOf(square[..2]) == Box(V2d(0.0, 0.0), V2d(4.0, 0.0));
    assert square[..3][..2] == square[..2];
    assert BoundsOf(square[..3]) == Box(V2d(0.0, 0.0), V2d(4.0, 4.0));
    assert square[..3] == square[..|square| - 1];
  }

  // ---------------------------------------------------------------------------
  // CopyWithoutHoles
  // ---------------------------------------------------------------------------

  /**
   * GpcPolygon.CopyWithoutHoles: keep the contours whose flag is false. The filter
   * runs over the contours and reads the flag of the same index, so the flags must be
   * at least as many as the contours.
   */
  function CopyWithoutHoles(p: GpcPolygon): (r: GpcPolygon)
    requires |p.contour| <= |p.hole|
    ensures WellFormed(r)
    ensures forall k :: 0 <= k < |r.hole| ==> !r.hole[k]
    ensures forall c :: c in r.contour <==> exists i :: 0 <= i < |p.contour| && !p.hole[i] && p.contour[i] == c
  {
    var kept := NonHoleContours(p.hole, p.contour, |p.contour|);
    forall c ensures c in kept <==> exists i :: 0 <= i < |p.contour| && !p.hole[i] && p.contour[i] == c {
      NonHoleContoursMember(p.hole, p.contour, |p.contour|, c);
    }
    GpcPolygon(seq(|kept|, _ => false), kept)
  }

  /** The indices below n whose flag is not a hole, in increasing order. */
  function KeptIndices(hole: seq<bool>, n: nat): (r: seq<nat>)
    requires n <= |hole|
    ensures forall k :: 0 <= k < |r| ==> r[k] < n
  {
    if n == 0 then [] else KeptIndices(hole, n - 1) + (if hole[n - 1] then [] else [n - 1])
  }

  /**
   * The kept contours are exactly those at the non-hole indices, in increasing index order:
   * the result is the subsequence of the contours selected by a strictly increasing
   * list of indices that holds every non-hole index and nothing else.
   */
  lemma {:induction false} CopyWithoutHolesOrder(p: GpcPolygon)
    requires |p.contour| <= |p.hole|
    ensures var idx := KeptIndices(p.hole, |p.contour|);
            var r := CopyWithoutHoles(p);
            |r.contour| == |idx| &&
            (forall k :: 0 <= k < |idx| ==> idx[k] < |p.contour| && r.contour[k] == p.contour[idx[k]]) &&
            (forall k, l :: 0 <= k < l < |idx| ==> idx[k] < idx[l]) &&
            (forall i :: 0 <= i < |p.contour| ==> (i in idx <==> !p.hole[i]))
  {
    KeptIndicesSelect(p.hole, p.contour, |p.contour|);
    KeptIndicesIncreasing(p.hole, |p.contour|);
    KeptIndicesMembers(p.hole, |p.contour|);
  }

  /** The kept contours are the contours at the kept indices. */
  lemma {:induction false} KeptIndicesSelect(hole: seq<bool>, contour: seq<Polygon2d>, n: nat)
    requires n <= |hole| && n <= |contour|
    ensures var idx := KeptIndices(hole, n);
            var kept := NonHoleContours(hole, contour, n);
            |kept| == |idx| && forall k :: 0 <= k < |idx| ==> kept[k] == contour[idx[k]]
  {
    if n > 0 {
      KeptIndicesSelect(hole, contour, n - 1);
      if !hole[n - 1] {
        assert KeptIndices(hole, n) == KeptIndices(hole, n - 1) + [n - 1];
      }
    }
  }

  /** The kept indices are listed in strictly increasing order. */
  lemma {:induction false} KeptIndicesIncreasing(hole: seq<bool>, n: nat)
    requires n <= |hole|
    ensures var idx := KeptIndices(hole, n);
            forall k, l :: 0 <= k < l < |idx| ==> idx[k] < idx[l]
  {
    if n > 0 {
      KeptIndicesIncreasing(hole, n - 1);
      if !hole[n - 1] {
        var idx0 := KeptIndices(hole, n - 1);
        assert KeptIndices(hole, n) == idx0 + [n - 1];
        assert forall k :: 0 <= k < |idx0| ==> idx0[k] < n - 1;
      } else {
        assert KeptIndices(hole, n) == KeptIndices(hole, n - 1);
      }
    }
  }

  /** An index below n is kept exactly when its contour is not a hole. */
  lemma {:induction false} KeptIndicesMembers(hole: seq<bool>, n: nat)
    requires n <= |hole|
    ensures forall i :: 0 <= i < n ==> (i in KeptIndices(hole, n) <==> !hole[i])
  {
    if n > 0 {
      KeptIndicesMembers(hole, n - 1);
      assert n - 1 !in KeptIndices(hole, n - 1);
    }
  }

  /** Removing holes twice is the same as removing them once. */
  lemma CopyWithoutHolesIdempotent(p: GpcPolygon)
    requires |p.contour| <= |p.hole|
    ensures CopyWithoutHoles(CopyWithoutHoles(p)) == CopyWithoutHoles(p)
  {
    var r := CopyWithoutHoles(p);
    NoHolesKeepsAll(r.hole, r.contour, |r.contour|);
  }

  lemma {:induction false} NoHolesKeepsAll(hole: seq<bool>, contour: seq<Polygon2d>, n: nat)
    requires n <= |hole| && n <= |contour|
    requires forall i :: 0 <= i < n ==> !hole[i]
    ensures NonHoleContours(hole, contour, n) == contour[..n]
  {
    if n > 0 {
      NoHolesKeepsAll(hole, contour, n - 1);
      assert contour[..n] == contour[..n - 1] + [contour[n - 1]];
    }
  }

  /** Dropping the holes does not move the bounding box. */
  lemma CopyWithoutHolesKeepsBox(p: GpcPolygon)
    requires WellFormed(p)
    ensures BoundingBox(CopyWithoutHoles(p)) == BoundingBox(p)
  {
    var r := CopyWithoutHoles(p);
    NoHolesKeepsAll(r.hole, r.contour, |r.contour|);
    assert r.contour[..|r.contour|] == r.contour;
  }

  /** The empty set and a single contour behave as expected under hole removal. */
  lemma CopyWithoutHolesSingle(polygon: Polygon2d, isHole: bool)
    ensures CopyWithoutHoles(FromPolygon(polygon, isHole)) ==
            if isHole then Empty() else FromPolygon(polygon)
  {
  }
}
