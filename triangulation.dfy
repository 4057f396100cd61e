/**
 * Triangle-strip assembly: GpcPolygon.ComputeTriangulation turns the strips the
 * clipping library returns into a flat triangle array, and
 * GpcPolygon.ComputeTriangulationIndexed into a deduplicated vertex list plus index
 * triples. The strips are a parameter here: the native call that produces them is
 * outside the model.
 */
module Triangulation {
  import opened Geometry

  type Strip = seq<V2d>

  /** Every strip has the two leading points both assemblies read unconditionally. */
  predicate AllStripsHaveTwoPoints(strips: seq<Strip>) {
    forall k :: 0 <= k < |strips| ==> |strips[k]| >= 2
  }

  // ---------------------------------------------------------------------------
  // Reference definitions
  // ---------------------------------------------------------------------------

  /**
   * The triangle of step i of a strip: the three points ending at i, with the first two
   * swapped on odd steps so that every triangle keeps the strip's first winding.
   */
  function StepTriangle(s: Strip, i: int): Triangle2d
    requires 2 <= i < |s|
  {
    if i % 2 == 0 then Triangle2d(s[i - 2], s[i - 1], s[i])
    else Triangle2d(s[i - 1], s[i - 2], s[i])
  }

  /** The triangles of steps 2 .. k-1 of strip s, in step order. */
  function StripTriangles(s: Strip, k: int): seq<Triangle2d>
    requires k <= |s|
  {
    if k <= 2 then [] else StripTriangles(s, k - 1) + [StepTriangle(s, k - 1)]
  }

  /** The triangles of all strips, strip after strip. */
  function FlatTriangles(strips: seq<Strip>): seq<Triangle2d> {
    if strips == [] then []
    else
      var last := strips[|strips| - 1];
      FlatTriangles(strips[..|strips| - 1]) + StripTriangles(last, |last|)
  }

  /** The array size the source computes: the sum of (length - 2), without clamping. */
  function TotalTriangleCount(strips: seq<Strip>): int {
    if strips == [] then 0
    else TotalTriangleCount(strips[..|strips| - 1]) + |strips[|strips| - 1]| - 2
  }

  /** The number of triangles the strips encode: the sum of max(0, length - 2). */
  function TriangleCount(strips: seq<Strip>): nat {
    if strips == [] then 0
    else
      var n := |strips[|strips| - 1]|;
      TriangleCount(strips[..|strips| - 1]) + (if n < 2 then 0 else n - 2)
  }

  // ---------------------------------------------------------------------------
  // Properties of the reference definitions
  // ---------------------------------------------------------------------------

  lemma {:induction false} StripTrianglesAt(s: Strip, k: int)
    requires k <= |s|
    ensures |StripTriangles(s, k)| == if k < 2 then 0 else k - 2
    ensures forall i :: 2 <= i < k ==> StripTriangles(s, k)[i - 2] == StepTriangle(s, i)
  {
    if k > 2 {
      StripTrianglesAt(s, k - 1);
    }
  }

  /** Strips shorter than three points contribute nothing; the count is the clamped sum. */
  lemma {:induction false} FlatTrianglesLength(strips: seq<Strip>)
    ensures |FlatTriangles(strips)| == TriangleCount(strips)
  {
    if strips != [] {
      var last := strips[|strips| - 1];
      FlatTrianglesLength(strips[..|strips| - 1]);
      StripTrianglesAt(last, |last|);
    }
  }

  /** When every strip has at least two points, the unclamped sum is exact. */
  lemma {:induction false} TotalTriangleCountExact(strips: seq<Strip>)
    requires AllStripsHaveTwoPoints(strips)
    ensures TotalTriangleCount(strips) == TriangleCount(strips) == |FlatTriangles(strips)|
  {
    FlatTrianglesLength(strips);
    if strips != [] {
      TotalTriangleCountExact(strips[..|strips| - 1]);
    }
  }

  /**
   * Strips are emitted in order and each strip's triangles are contiguous: the triangle
   * of step i of strip k sits at the number of triangles of the earlier strips plus i - 2.
   */
  lemma {:induction false} FlatTrianglesAt(strips: seq<Strip>, k: int, i: int)
    requires 0 <= k < |strips| && 2 <= i < |strips[k]|
    ensures TriangleCount(strips[..k]) + i - 2 < |FlatTriangles(strips)|
    ensures FlatTriangles(strips)[TriangleCount(strips[..k]) + i - 2] == StepTriangle(strips[k], i)
  {
    var n := |strips|;
    var init := strips[..n - 1];
    var last := strips[n - 1];
    FlatTrianglesLength(init);
    StripTrianglesAt(last, |last|);
    if k == n - 1 {
      assert strips[..k] == init;
    } else {
      assert init[..k] == strips[..k];
      FlatTrianglesAt(init, k, i);
    }
  }

  /** The directed edge a -> b is one of the three edges of t, walked in t's order. */
  predicate HasEdge(t: Triangle2d, a: V2d, b: V2d) {
    (t.p0 == a && t.p1 == b) || (t.p1 == a && t.p2 == b) || (t.p2 == a && t.p0 == b)
  }

  /**
   * Consistent winding, combinatorially: consecutive triangles of a strip share the edge
   * between points i-1 and i, and walk it in opposite directions.
   */
  lemma ConsistentWinding(strips: seq<Strip>, k: int, i: int)
    requires 0 <= k < |strips| && 2 <= i < |strips[k]| - 1
    ensures TriangleCount(strips[..k]) + i - 1 < |FlatTriangles(strips)|
    ensures var s := strips[k];
            var t := FlatTriangles(strips)[TriangleCount(strips[..k]) + i - 2];
            var u := FlatTriangles(strips)[TriangleCount(strips[..k]) + i - 1];
            (HasEdge(t, s[i - 1], s[i]) && HasEdge(u, s[i], s[i - 1])) ||
            (HasEdge(t, s[i], s[i - 1]) && HasEdge(u, s[i - 1], s[i]))
  {
    FlatTrianglesAt(strips, k, i);
    FlatTrianglesAt(strips, k, i + 1);
  }

  /** Twice the signed area of the triangle a, b, c: positive when counter-clockwise. */
  function Cross(a: V2d, b: V2d, c: V2d): real {
    (b.x - a.x) * (c.y - a.y) - (b.y - a.y) * (c.x - a.x)
  }

  function Orientation(t: Triangle2d): real {
    Cross(t.p0, t.p1, t.p2)
  }

  /** The orientation of the raw triple of points ending at step i. */
  function RawCross(s: Strip, i: int): real
    requires 2 <= i < |s|
  {
    Cross(s[i - 2], s[i - 1], s[i])
  }

  /** Swapping the first two points on odd steps negates the orientation of the raw triple. */
  lemma StepOrientation(s: Strip, i: int)
    requires 2 <= i < |s|
    ensures Orientation(StepTriangle(s, i)) == if i % 2 == 0 then RawCross(s, i) else -RawCross(s, i)
  {
  }

  /**
   * Consistent winding, geometrically: in a strip whose consecutive raw triples turn in
   * opposite directions (which is what a triangle strip is), every emitted triangle has
   * the orientation of the first one.
   */
  lemma {:induction false} UniformOrientation(s: Strip, i: int)
    requires 2 <= i < |s|
    requires forall j :: 2 <= j < |s| ==> RawCross(s, j) != 0.0
    requires forall j, j' :: 2 <= j && j' == j + 1 && j' < |s| ==> (RawCross(s, j) > 0.0 <==> RawCross(s, j') < 0.0)
    ensures Orientation(StepTriangle(s, i)) != 0.0
    ensures Orientation(StepTriangle(s, i)) > 0.0 <==> Orientation(StepTriangle(s, 2)) > 0.0
  {
    StepOrientation(s, i);
    if i > 2 {
      UniformOrientation(s, i - 1);
      StepOrientation(s, i - 1);
      assert RawCross(s, i - 1) > 0.0 <==> RawCross(s, i) < 0.0;
    }
  }

  // ---------------------------------------------------------------------------
  // ComputeTriangulation
  // ---------------------------------------------------------------------------

  /** The unclamped count of a prefix never exceeds the count of the whole. */
  lemma {:induction false} TotalTriangleCountPrefix(strips: seq<Strip>, k: int)
    requires AllStripsHaveTwoPoints(strips) && 0 <= k < |strips|
    ensures 0 <= TotalTriangleCount(strips[..k])
    ensures TotalTriangleCount(strips[..k]) + |strips[k]| - 2 <= TotalTriangleCount(strips)
  {
    var n := |strips|;
    var init := strips[..n - 1];
    TotalTriangleCountExact(strips[..k]);
    if k == n - 1 {
      assert strips[..k] == init;
      TotalTriangleCountExact(init);
    } else {
      assert init[..k] == strips[..k];
      TotalTriangleCountPrefix(init, k);
      TotalTriangleCountExact(init);
    }
  }

  /**
   * GpcPolygon.ComputeTriangulation: size the result by the sum of (length - 2) and write
   * the triangles of every strip, step by step, into consecutive slots.
   */
  method ComputeTriangulation(strips: seq<Strip>) returns (triangles: array<Triangle2d>)
    requires AllStripsHaveTwoPoints(strips)
    ensures triangles.Length == TotalTriangleCount(strips)
    ensures triangles[..] == FlatTriangles(strips)
  {
    TotalTriangleCountExact(strips);
    var totalTriangleCount := TotalTriangleCount(strips);
    triangles := new Triangle2d[totalTriangleCount];
    var ti := 0;
    for k := 0 to |strips|
      invariant ti == TotalTriangleCount(strips[..k]) <= totalTriangleCount
      invariant triangles[..ti] == FlatTriangles(strips[..k])
    {
      var s := strips[k];
      TotalTriangleCountPrefix(strips, k);
      for i := 2 to |s|
        invariant ti == TotalTriangleCount(strips[..k]) + i - 2
        invariant triangles[..ti] == FlatTriangles(strips[..k]) + StripTriangles(s, i)
      {
        if i % 2 == 0 {
          triangles[ti] := Triangle2d(s[i - 2], s[i - 1], s[i]);
        } else {
          triangles[ti] := Triangle2d(s[i - 1], s[i - 2], s[i]);
        }
        assert triangles[..ti + 1] == triangles[..ti] + [StepTriangle(s, i)];
        ti := ti + 1;
      }
      PrefixStep(strips, k);
    }
    assert strips[..|strips|] == strips;
  }

  // ---------------------------------------------------------------------------
  // Vertex deduplication
  // ---------------------------------------------------------------------------

  /** All points of all strips, strip after strip. */
  function Flatten(strips: seq<Strip>): seq<V2d> {
    if strips == [] then [] else Flatten(strips[..|strips| - 1]) + strips[|strips| - 1]
  }

  /** Growing a prefix of the strips by one strip extends each reference definition by that strip. */
  lemma PrefixStep(strips: seq<Strip>, k: nat)
    requires k < |strips|
    ensures Flatten(strips[..k + 1]) == Flatten(strips[..k]) + strips[k]
    ensures FlatTriangles(strips[..k + 1]) == FlatTriangles(strips[..k]) + StripTriangles(strips[k], |strips[k]|)
    ensures TotalTriangleCount(strips[..k + 1]) == TotalTriangleCount(strips[..k]) + |strips[k]| - 2
  {
    assert strips[..k + 1][..k] == strips[..k];
  }

  /** The distinct elements of xs in order of first occurrence. */
  function Dedup<T(==)>(xs: seq<T>): seq<T> {
    if xs == [] then []
    else
      var d := Dedup(xs[..|xs| - 1]);
      if xs[|xs| - 1] in d then d else d + [xs[|xs| - 1]]
  }

  predicate NoDuplicates<T(==)>(xs: seq<T>) {
    forall i, j :: 0 <= i < j < |xs| ==> xs[i] != xs[j]
  }

  /** The position of the first occurrence of x in xs. */
  function FirstIndex<T(==)>(xs: seq<T>, x: T): (r: nat)
    requires x in xs
    ensures r < |xs| && xs[r] == x
    ensures forall j :: 0 <= j < r ==> xs[j] != x
  {
    if xs[0] == x then 0 else 1 + FirstIndex(xs[1..], x)
  }

  /**
   * Dedup keeps each element exactly once, keeps every element, adds nothing, and lists
   * the elements in the order of their first occurrence.
   */
  lemma {:induction false} DedupProperties<T>(xs: seq<T>)
    ensures NoDuplicates(Dedup(xs))
    ensures forall x :: x in Dedup(xs) <==> x in xs
    ensures forall i, j :: 0 <= i < j < |Dedup(xs)| ==>
              FirstIndex(xs, Dedup(xs)[i]) < FirstIndex(xs, Dedup(xs)[j])
  {
    if xs != [] {
      var n := |xs|;
      var init := xs[..n - 1];
      var d := Dedup(init);
      DedupProperties(init);
      assert xs == init + [xs[n - 1]];
      forall x | x in init ensures FirstIndex(xs, x) == FirstIndex(init, x) {
        FirstIndexPrefix(init, [xs[n - 1]], x);
      }
      if xs[n - 1] !in d {
        assert FirstIndex(xs, xs[n - 1]) == n - 1 by {
          FirstIndexAt(xs, n - 1);
        }
      }
    }
  }

  lemma {:induction false} FirstIndexPrefix<T>(a: seq<T>, b: seq<T>, x: T)
    requires x in a
    ensures FirstIndex(a + b, x) == FirstIndex(a, x)
  {
    if a[0] != x {
      assert (a + b)[1..] == a[1..] + b;
      FirstIndexPrefix(a[1..], b, x);
    }
  }

  lemma FirstIndexAt<T>(xs: seq<T>, i: int)
    requires 0 <= i < |xs| && forall j :: 0 <= j < i ==> xs[j] != xs[i]
    ensures FirstIndex(xs, xs[i]) == i
  {
    var r := FirstIndex(xs, xs[i]);
    assert !(r < i);
    assert !(i < r);
  }

  // ---------------------------------------------------------------------------
  // ComputeTriangulationIndexed
  // ---------------------------------------------------------------------------

  /** A dictionary that maps every listed vertex, and only those, to its position in the list. */
  ghost predicate IndexesVertices(dict: map<V2d, int>, vertices: seq<V2d>) {
    (forall p :: p in dict <==> p in vertices) &&
    (forall p :: p in dict ==> 0 <= dict[p] < |vertices| && vertices[dict[p]] == p)
  }

  /**
   * First pass of ComputeTriangulationIndexed: visit every point of every strip and give
   * each point not yet in the dictionary the next position of the vertex list.
   */
  method CollectVertices(strips: seq<Strip>) returns (vertices: seq<V2d>, verticesDict: map<V2d, int>)
    ensures vertices == Dedup(Flatten(strips))
    ensures IndexesVertices(verticesDict, vertices)
  {
    verticesDict := map[];
    vertices := [];
    for k := 0 to |strips|
      invariant vertices == Dedup(Flatten(strips[..k]))
      invariant IndexesVertices(verticesDict, vertices)
    {
      var s := strips[k];
      ghost var seen := Flatten(strips[..k]);
      assert seen + s[..0] == seen;
      for j := 0 to |s|
        invariant vertices == Dedup(seen + s[..j])
        invariant IndexesVertices(verticesDict, vertices)
      {
        assert seen + s[..j + 1] == (seen + s[..j]) + [s[j]];
        vertices, verticesDict := AddVertex(vertices, verticesDict, s[j], seen + s[..j]);
      }
      PrefixStep(strips, k);
      assert s[..|s|] == s;
    }
    assert strips[..|strips|] == strips;
  }

  /** Give p the next position of the vertex list unless the dictionary already has it. */
  method AddVertex(vertices: seq<V2d>, verticesDict: map<V2d, int>, p: V2d, ghost xs: seq<V2d>)
    returns (vertices': seq<V2d>, verticesDict': map<V2d, int>)
    requires vertices == Dedup(xs) && IndexesVertices(verticesDict, vertices)
    ensures vertices' == Dedup(xs + [p]) && IndexesVertices(verticesDict', vertices')
  {
    DedupSnoc(xs, p);
    vertices', verticesDict' := vertices, verticesDict;
    if p !in verticesDict {
      IndexesVerticesAdd(verticesDict, vertices, p);
      verticesDict' := verticesDict[p := |vertices|];
      vertices' := vertices + [p];
    }
  }

  lemma DedupSnoc<T>(xs: seq<T>, p: T)
    ensures Dedup(xs + [p]) == if p in Dedup(xs) then Dedup(xs) else Dedup(xs) + [p]
  {
  }

  lemma IndexesVerticesAdd(dict: map<V2d, int>, vertices: seq<V2d>, p: V2d)
    requires IndexesVertices(dict, vertices) && p !in dict
    ensures IndexesVertices(dict[p := |vertices|], vertices + [p])
  {
    var dict', vertices' := dict[p := |vertices|], vertices + [p];
    forall q | q in dict' ensures 0 <= dict'[q] < |vertices'| && vertices'[dict'[q]] == q {
      if q != p {
        assert vertices'[dict[q]] == vertices[dict[q]];
      }
    }
  }

  /** Index triples read back through the vertex list. */
  function Resolve(vertices: seq<V2d>, indices: seq<int>): seq<Triangle2d>
    requires |indices| % 3 == 0
    requires forall t :: 0 <= t < |indices| ==> 0 <= indices[t] < |vertices|
  {
    if indices == [] then []
    else
      var n := |indices|;
      Resolve(vertices, indices[..n - 3]) +
        [Triangle2d(vertices[indices[n - 3]], vertices[indices[n - 2]], vertices[indices[n - 1]])]
  }

  lemma ResolveSnoc(vertices: seq<V2d>, indices: seq<int>, a: int, b: int, c: int)
    requires |indices| % 3 == 0
    requires forall t :: 0 <= t < |indices| ==> 0 <= indices[t] < |vertices|
    requires 0 <= a < |vertices| && 0 <= b < |vertices| && 0 <= c < |vertices|
    ensures Resolve(vertices, indices + [a, b, c]) ==
            Resolve(vertices, indices) + [Triangle2d(vertices[a], vertices[b], vertices[c])]
  {
    assert (indices + [a, b, c])[..|indices|] == indices;
  }

  /**
   * Second pass of ComputeTriangulationIndexed: per strip, seed the two carried indices
   * from its first two points, then emit (i0, i1, i2) for every further point and let i2
   * replace i0 on even steps and i1 on odd ones. Read back through the vertex list, the
   * triples are exactly the flat triangles.
   */
  method EmitIndices(strips: seq<Strip>, vertices: seq<V2d>, verticesDict: map<V2d, int>)
    returns (indices: seq<int>)
    requires AllStripsHaveTwoPoints(strips)
    requires IndexesVertices(verticesDict, vertices)
    requires forall p :: p in Flatten(strips) ==> p in verticesDict
    ensures |indices| == 3 * TotalTriangleCount(strips)
    ensures forall t :: 0 <= t < |indices| ==> 0 <= indices[t] < |vertices|
    ensures Resolve(vertices, indices) == FlatTriangles(strips)
  {
    indices := [];
    for k := 0 to |strips|
      invariant |indices| == 3 * TotalTriangleCount(strips[..k])
      invariant forall t :: 0 <= t < |indices| ==> 0 <= indices[t] < |vertices|
      invariant Resolve(vertices, indices) == FlatTriangles(strips[..k])
    {
      var s := strips[k];
      FlattenMember(strips, k);
      indices := EmitStrip(s, vertices, verticesDict, indices);
      PrefixStep(strips, k);
    }
    assert strips[..|strips|] == strips;
  }

  /**
   * The per-strip loop of EmitIndices: seed the two carried indices from the first two
   * points, then append (i0, i1, i2) for every further point, letting i2 replace i0 on
   * even steps and i1 on odd ones.
   */
  method EmitStrip(s: Strip, vertices: seq<V2d>, verticesDict: map<V2d, int>, indices: seq<int>)
    returns (indices': seq<int>)
    requires 2 <= |s|
    requires |indices| % 3 == 0
    requires forall t :: 0 <= t < |indices| ==> 0 <= indices[t] < |vertices|
    requires forall j :: 0 <= j < |s| ==>
      s[j] in verticesDict && 0 <= verticesDict[s[j]] < |vertices| && vertices[verticesDict[s[j]]] == s[j]
    ensures |indices'| == |indices| + 3 * (|s| - 2)
    ensures forall t :: 0 <= t < |indices'| ==> 0 <= indices'[t] < |vertices|
    ensures Resolve(vertices, indices') == Resolve(vertices, indices) + StripTriangles(s, |s|)
  {
    indices' := indices;
    var i0 := verticesDict[s[0]];
    var i1 := verticesDict[s[1]];
    for i := 2 to |s|
      invariant |indices'| == |indices| + 3 * (i - 2)
      invariant forall t :: 0 <= t < |indices'| ==> 0 <= indices'[t] < |vertices|
      invariant Resolve(vertices, indices') == Resolve(vertices, indices) + StripTriangles(s, i)
      invariant 0 <= i0 < |vertices| && 0 <= i1 < |vertices|
      invariant vertices[i0] == if i % 2 == 0 then s[i - 2] else s[i - 1]
      invariant vertices[i1] == if i % 2 == 0 then s[i - 1] else s[i - 2]
    {
      // 0 1 2; 2 1 3; 2 3 4; 4 3 5
      var i2 := verticesDict[s[i]];
      ResolveSnoc(vertices, indices', i0, i1, i2);
      indices' := indices' + [i0, i1, i2];
      if i % 2 == 0 {
        i0 := i2;
      } else {
        i1 := i2;
      }
    }
  }

  lemma {:induction false} FlattenMember(strips: seq<Strip>, k: int)
    requires 0 <= k < |strips|
    ensures forall j :: 0 <= j < |strips[k]| ==> strips[k][j] in Flatten(strips)
  {
    var n := |strips|;
    if k < n - 1 {
      FlattenMember(strips[..n - 1], k);
    }
  }

  /**
   * GpcPolygon.ComputeTriangulationIndexed: a vertex list without duplicates holding every
   * strip point in order of first occurrence, and index triples that, read back through
   * it, give exactly the triangles of ComputeTriangulation.
   */
  method ComputeTriangulationIndexed(strips: seq<Strip>) returns (vertices: seq<V2d>, indices: seq<int>)
    requires AllStripsHaveTwoPoints(strips)
    ensures vertices == Dedup(Flatten(strips))
    ensures NoDuplicates(vertices)
    ensures forall p :: p in vertices <==> p in Flatten(strips)
    ensures |indices| == 3 * TotalTriangleCount(strips)
    ensures forall t :: 0 <= t < |indices| ==> 0 <= indices[t] < |vertices|
    ensures Resolve(vertices, indices) == FlatTriangles(strips)
    ensures forall a, b :: 0 <= a < |indices| && 0 <= b < |indices| && vertices[indices[a]] == vertices[indices[b]]
              ==> indices[a] == indices[b]
  {
    var verticesDict;
    vertices, verticesDict := CollectVertices(strips);
    DedupProperties(Flatten(strips));
    indices := EmitIndices(strips, vertices, verticesDict);
  }
}
