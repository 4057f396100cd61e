/**
 * Marshaling between the managed polygon set and the nested layout of the native
 * clipping library (GpcWrapper.ToNative, ToManaged, Free).
 *
 * Native memory is modelled by typed arrays: a pointer to a block of n records is a
 * nullable array of length n, and `CoTaskMemory` is the allocator, recording which
 * blocks are handed out and not yet released. The pointer stepping of the source
 * becomes indexing.
 */
module GpcWrapper {
  import opened Geometry
  import opened Polygons

  /** gpc_vertex */
  datatype GpcVertex = GpcVertex(x: real, y: real)

  /** gpc_vertex_list: a vertex count and a pointer to that many vertices. */
  datatype GpcVertexList = GpcVertexList(numVertices: int, vertex: array?<GpcVertex>)

  /** gpc_polygon: a contour count, a pointer to the hole flags and one to the contour descriptors. */
  datatype GpcPolygonBuffer = GpcPolygonBuffer(numContours: int, hole: array?<int>, contour: array?<GpcVertexList>)

  /** gpc_tristrip: a strip count and a pointer to the strip descriptors. */
  datatype GpcTristripBuffer = GpcTristripBuffer(numStrips: int, strip: array?<GpcVertexList>)

  /** Marshal.AllocCoTaskMem / FreeCoTaskMem: the blocks currently allocated. */
  class CoTaskMemory {
    var live: set<object>

    constructor ()
      ensures live == {}
    {
      live := {};
    }

    /** A fresh block of `count` records; its contents are unspecified until written. */
    method Alloc<T(0)>(count: nat) returns (block: array<T>)
      modifies this
      ensures fresh(block) && block.Length == count
      ensures live == old(live) + {block}
    {
      block := new T[count];
      live := live + {block};
    }

    /** Release a block; releasing the null pointer does nothing. A block is released at most once. */
    method FreeCoTaskMem(block: object?)
      requires block == null || block in live
      modifies this
      ensures live == if block == null then old(live) else old(live) - {block}
    {
      if block != null {
        live := live - {block};
      }
    }
  }

  // ---------------------------------------------------------------------------
  // Reading native buffers
  // ---------------------------------------------------------------------------

  /** A vertex list whose count is non-negative and whose pointer covers the count. */
  predicate VertexListReadable(l: GpcVertexList) {
    0 <= l.numVertices && (l.numVertices > 0 ==> l.vertex != null && l.numVertices <= l.vertex.Length)
  }

  /** The vertices a readable vertex list describes. */
  ghost function VertexListView(l: GpcVertexList): (r: seq<GpcVertex>)
    requires VertexListReadable(l)
    reads l.vertex
    ensures |r| == l.numVertices
  {
    if l.numVertices == 0 then [] else l.vertex[..l.numVertices]
  }

  /** A descriptor array of which the first n entries can be read, each a readable vertex list. */
  ghost predicate DescriptorsReadable(lists: array?<GpcVertexList>, n: int)
    reads lists
  {
    0 <= n &&
    (n > 0 ==> lists != null && n <= lists.Length && forall i :: 0 <= i < n ==> VertexListReadable(lists[i]))
  }

  /** The vertex blocks the first n descriptors point to. */
  ghost function VertexBlocks(lists: array?<GpcVertexList>, n: int): set<object>
    reads lists
  {
    if lists == null then {}
    else BlocksOf(lists[..if n < 0 then 0 else if n < lists.Length then n else lists.Length])
  }

  /** The non-null vertex blocks a sequence of descriptors points to. */
  ghost function BlocksOf(ds: seq<GpcVertexList>): set<object> {
    set i | 0 <= i < |ds| && ds[i].vertex != null :: ds[i].vertex as object
  }

  /** The vertex sequences of the first n descriptors. */
  ghost function DescriptorsView(lists: array?<GpcVertexList>, n: int): (r: seq<seq<GpcVertex>>)
    requires DescriptorsReadable(lists, n)
    reads lists, VertexBlocks(lists, n)
    ensures |r| == n
    ensures forall i :: 0 <= i < n ==> r[i] == VertexListView(lists[i])
  {
    if n == 0 then []
    else
      assert DescriptorsReadable(lists, n - 1);
      DescriptorsView(lists, n - 1) + [VertexListView(lists[n - 1])]
  }

  ghost predicate PolygonBufferReadable(b: GpcPolygonBuffer)
    reads b.contour
  {
    DescriptorsReadable(b.contour, b.numContours) &&
    (b.numContours > 0 ==> b.hole != null && b.numContours <= b.hole.Length)
  }

  ghost predicate TristripBufferReadable(b: GpcTristripBuffer)
    reads b.strip
  {
    DescriptorsReadable(b.strip, b.numStrips)
  }

  /** The hole-flag integers of a readable polygon buffer. */
  ghost function HoleView(b: GpcPolygonBuffer): (r: seq<int>)
    requires PolygonBufferReadable(b)
    reads b.contour, b.hole
    ensures |r| == b.numContours
  {
    if b.numContours == 0 then [] else b.hole[..b.numContours]
  }

  /** The contours of a readable polygon buffer. */
  ghost function ContoursView(b: GpcPolygonBuffer): (r: seq<seq<GpcVertex>>)
    requires PolygonBufferReadable(b)
    reads b.contour, VertexBlocks(b.contour, b.numContours)
    ensures |r| == b.numContours
  {
    DescriptorsView(b.contour, b.numContours)
  }

  // ---------------------------------------------------------------------------
  // Encodings
  // ---------------------------------------------------------------------------

  /** A hole flag as the native side stores it. */
  function EncodeHole(isHole: bool): int { if isHole then 1 else 0 }

  /** A native hole flag read back: any non-zero value is a hole. */
  function DecodeHole(flag: int): bool { flag != 0 }

  function ToGpcVertex(v: V2d): GpcVertex { GpcVertex(v.x, v.y) }

  function FromGpcVertex(v: GpcVertex): V2d { V2d(v.x, v.y) }

  function ToGpcVertices(points: seq<V2d>): (r: seq<GpcVertex>)
    ensures |r| == |points|
  {
    seq(|points|, i requires 0 <= i < |points| => ToGpcVertex(points[i]))
  }

  function FromGpcVertices(vs: seq<GpcVertex>): (r: seq<V2d>)
    ensures |r| == |vs|
  {
    seq(|vs|, i requires 0 <= i < |vs| => FromGpcVertex(vs[i]))
  }

  /** Decoding undoes encoding, for hole flags and for vertices. */
  lemma EncodingRoundTrip(isHole: bool, points: seq<V2d>)
    ensures DecodeHole(EncodeHole(isHole)) == isHole
    ensures FromGpcVertices(ToGpcVertices(points)) == points
  {
  }

  // ---------------------------------------------------------------------------
  // ToNative
  // ---------------------------------------------------------------------------

  /** The blocks ToNative allocates for a buffer: flags, descriptors and every vertex block. */
  ghost function Allocations(b: GpcPolygonBuffer): set<object>
    requires b.hole != null && b.contour != null
    reads b.contour
  {
    {b.hole as object, b.contour as object} + VertexBlocks(b.contour, b.numContours)
  }

  /** No two of the first n descriptors share a vertex block. */
  ghost predicate DistinctBlocks(lists: array<GpcVertexList>, n: int)
    reads lists
  {
    forall i, j :: 0 <= i < j < n && j < lists.Length ==>
      lists[i].vertex == null || lists[i].vertex != lists[j].vertex
  }

  lemma VertexBlocksExtend(lists: array<GpcVertexList>, i: int, vertex: array<GpcVertex>)
    requires 0 <= i < lists.Length && lists[i].vertex == vertex
    ensures VertexBlocks(lists, i + 1) == VertexBlocks(lists, i) + {vertex as object}
  {
  }

  /**
   * The contour loop of ToNative: for every contour, allocate a vertex block, copy the
   * points into it and store its descriptor in the next slot of the descriptor block.
   */
  method FillContours(mem: CoTaskMemory, contour: array<GpcVertexList>, contours: seq<Polygon2d>)
    requires |contours| <= contour.Length
    modifies mem, contour
    ensures forall k :: 0 <= k < |contours| ==>
      contour[k].numVertices == |contours[k].points| && contour[k].vertex != null &&
      fresh(contour[k].vertex) && contour[k].vertex[..] == ToGpcVertices(contours[k].points)
    ensures forall k :: |contours| <= k < contour.Length ==> contour[k] == old(contour[k])
    ensures DistinctBlocks(contour, |contours|)
    ensures mem.live == old(mem.live) + VertexBlocks(contour, |contours|)
  {
    assert VertexBlocks(contour, 0) == {};
    for i := 0 to |contours|
      modifies mem, contour
      invariant mem.live == old(mem.live) + VertexBlocks(contour, i)
      invariant forall k :: 0 <= k < i ==>
        contour[k].numVertices == |contours[k].points| && contour[k].vertex != null &&
        fresh(contour[k].vertex) && contour[k].vertex[..] == ToGpcVertices(contours[k].points)
      invariant forall k :: i <= k < contour.Length ==> contour[k] == old(contour[k])
      invariant DistinctBlocks(contour, i)
    {
      ghost var done := contour[..i];
      var vertex := NewVertexBlock(mem, contours[i].points);
      contour[i] := GpcVertexList(|contours[i].points|, vertex);
      assert contour[..i] == done;
      VertexBlocksExtend(contour, i, vertex);
    }
  }

  /** The inner loop of ToNative: one contour's vertex block, filled in index order. */
  method NewVertexBlock(mem: CoTaskMemory, points: seq<V2d>) returns (vertex: array<GpcVertex>)
    modifies mem
    ensures fresh(vertex) && vertex[..] == ToGpcVertices(points)
    ensures mem.live == old(mem.live) + {vertex}
  {
    vertex := mem.Alloc<GpcVertex>(|points|);
    for j := 0 to |points|
      modifies vertex
      invariant forall m :: 0 <= m < j ==> vertex[m] == ToGpcVertex(points[m])
    {
      vertex[j] := GpcVertex(points[j].x, points[j].y);
    }
  }

  /**
   * GpcWrapper.ToNative: allocate the hole flags (1 for a hole, 0 otherwise) and the contour
   * descriptors, then per contour a vertex block filled in index order. The flags are read
   * for every contour index, so there must be at least as many flags as contours.
   */
  method ToNative(mem: CoTaskMemory, polygon: GpcPolygon) returns (b: GpcPolygonBuffer)
    requires |polygon.contour| <= |polygon.hole|
    modifies mem
    ensures b.numContours == |polygon.contour|
    ensures b.hole != null && b.contour != null && fresh(b.hole) && fresh(b.contour)
    ensures PolygonBufferReadable(b)
    ensures forall i :: 0 <= i < b.numContours ==> b.contour[i].vertex != null && fresh(b.contour[i].vertex)
    ensures DistinctBlocks(b.contour, b.numContours)
    ensures HoleView(b) == seq(|polygon.contour|, i requires 0 <= i < |polygon.contour| => EncodeHole(polygon.hole[i]))
    ensures ContoursView(b) ==
            seq(|polygon.contour|, i requires 0 <= i < |polygon.contour| => ToGpcVertices(polygon.contour[i].points))
    ensures mem.live == old(mem.live) + Allocations(b)
  {
    var n := |polygon.contour|;
    var hole := mem.Alloc<int>(n);
    for i := 0 to n
      modifies hole
      invariant forall k :: 0 <= k < i ==> hole[k] == EncodeHole(polygon.hole[k])
    {
      hole[i] := if polygon.hole[i] then 1 else 0;
    }
    var contour := mem.Alloc<GpcVertexList>(n);
    FillContours(mem, contour, polygon.contour);
    b := GpcPolygonBuffer(n, hole, contour);
    FilledBufferViews(b, polygon);
  }

  /** A buffer whose arrays hold the encoded flags and vertices reads back as exactly those. */
  lemma FilledBufferViews(b: GpcPolygonBuffer, polygon: GpcPolygon)
    requires b.hole != null && b.contour != null
    requires b.numContours == |polygon.contour| <= |polygon.hole|
    requires b.numContours <= b.hole.Length && b.numContours <= b.contour.Length
    requires forall k :: 0 <= k < b.numContours ==> b.hole[k] == EncodeHole(polygon.hole[k])
    requires forall k :: 0 <= k < b.numContours ==>
      b.contour[k].numVertices == |polygon.contour[k].points| && b.contour[k].vertex != null &&
      b.contour[k].vertex[..] == ToGpcVertices(polygon.contour[k].points)
    ensures PolygonBufferReadable(b)
    ensures HoleView(b) == seq(|polygon.contour|, i requires 0 <= i < |polygon.contour| => EncodeHole(polygon.hole[i]))
    ensures ContoursView(b) ==
            seq(|polygon.contour|, i requires 0 <= i < |polygon.contour| => ToGpcVertices(polygon.contour[i].points))
  {
    var n := b.numContours;
    assert PolygonBufferReadable(b);
    forall i | 0 <= i < n ensures ContoursView(b)[i] == ToGpcVertices(polygon.contour[i].points) {
      assert b.contour[i].vertex[..b.contour[i].numVertices] == b.contour[i].vertex[..];
    }
  }

  // ---------------------------------------------------------------------------
  // ToManaged
  // ---------------------------------------------------------------------------

  function DecodeHoles(flags: seq<int>): (r: seq<bool>)
    ensures |r| == |flags|
  {
    seq(|flags|, i requires 0 <= i < |flags| => DecodeHole(flags[i]))
  }

  function ToManagedContours(cs: seq<seq<GpcVertex>>): (r: seq<Polygon2d>)
    ensures |r| == |cs|
  {
    seq(|cs|, i requires 0 <= i < |cs| => Polygon2d(FromGpcVertices(cs[i])))
  }

  function ToManagedStrips(cs: seq<seq<GpcVertex>>): (r: seq<seq<V2d>>)
    ensures |r| == |cs|
  {
    seq(|cs|, i requires 0 <= i < |cs| => FromGpcVertices(cs[i]))
  }

  /** The inner loop of both ToManaged overloads: copy a vertex list's vertices in order. */
  method ReadVertices(l: GpcVertexList) returns (points: seq<V2d>)
    requires VertexListReadable(l)
    ensures points == FromGpcVertices(VertexListView(l))
  {
    var va := new V2d[l.numVertices];
    for j := 0 to l.numVertices
      invariant forall m :: 0 <= m < j ==> va[m] == FromGpcVertex(l.vertex[m])
    {
      va[j] := V2d(l.vertex[j].x, l.vertex[j].y);
    }
    points := va[..];
  }

  /**
   * GpcWrapper.ToManaged(gpc_polygon): one contour and one flag per native contour, the
   * vertices copied in order and a flag read as a hole when it is non-zero. A buffer with
   * no contours is not read at all and gives the empty set.
   */
  method ToManaged(b: GpcPolygonBuffer) returns (polygon: GpcPolygon)
    requires PolygonBufferReadable(b)
    ensures WellFormed(polygon) && |polygon.contour| == b.numContours
    ensures polygon.hole == DecodeHoles(HoleView(b))
    ensures polygon.contour == ToManagedContours(ContoursView(b))
    ensures b.numContours == 0 ==> polygon == Empty()
  {
    var numContours := b.numContours;
    var hole := new bool[numContours];
    var contour := new Polygon2d[numContours];
    if numContours > 0 {
      for i := 0 to numContours
        invariant forall k :: 0 <= k < i ==> hole[k] == DecodeHole(b.hole[k])
        invariant forall k :: 0 <= k < i ==> contour[k] == Polygon2d(FromGpcVertices(VertexListView(b.contour[k])))
      {
        var points := ReadVertices(b.contour[i]);
        contour[i] := Polygon2d(points);
        hole[i] := b.hole[i] != 0;
      }
    }
    polygon := GpcPolygon(hole[..], contour[..]);
  }

  /** GpcWrapper.ToManaged(gpc_tristrip): one point sequence per native strip, vertices in order. */
  method ToManagedTristrip(b: GpcTristripBuffer) returns (tristrip: seq<seq<V2d>>)
    requires TristripBufferReadable(b)
    ensures |tristrip| == b.numStrips
    ensures tristrip == ToManagedStrips(DescriptorsView(b.strip, b.numStrips))
  {
    var nofStrips := b.numStrips;
    var strips := new seq<V2d>[nofStrips];
    for i := 0 to nofStrips
      invariant forall k :: 0 <= k < i ==> strips[k] == FromGpcVertices(VertexListView(b.strip[k]))
    {
      strips[i] := ReadVertices(b.strip[i]);
    }
    tristrip := strips[..];
  }

  /**
   * Marshaling a polygon set and reading it back gives the set again: the same contours
   * with the same vertices in order and the same flags (the flags beyond the last contour
   * are never marshaled).
   */
  method MarshalRoundTrip(polygon: GpcPolygon) returns (result: GpcPolygon)
    requires |polygon.contour| <= |polygon.hole|
    ensures result == GpcPolygon(polygon.hole[..|polygon.contour|], polygon.contour)
    ensures WellFormed(polygon) ==> result == polygon
  {
    var mem := new CoTaskMemory();
    var b := ToNative(mem, polygon);
    result := ToManaged(b);
    RoundTripValues(polygon, b);
  }

  lemma RoundTripValues(polygon: GpcPolygon, b: GpcPolygonBuffer)
    requires |polygon.contour| <= |polygon.hole|
    requires PolygonBufferReadable(b)
    requires HoleView(b) == seq(|polygon.contour|, i requires 0 <= i < |polygon.contour| => EncodeHole(polygon.hole[i]))
    requires ContoursView(b) ==
             seq(|polygon.contour|, i requires 0 <= i < |polygon.contour| => ToGpcVertices(polygon.contour[i].points))
    ensures DecodeHoles(HoleView(b)) == polygon.hole[..|polygon.contour|]
    ensures ToManagedContours(ContoursView(b)) == polygon.contour
  {
    var n := |polygon.contour|;
    forall i | 0 <= i < n ensures ToManagedContours(ContoursView(b))[i] == polygon.contour[i] {
      EncodingRoundTrip(polygon.hole[i], polygon.contour[i].points);
    }
  }

  // ---------------------------------------------------------------------------
  // Free
  // ---------------------------------------------------------------------------

  ghost function BlockOf(p: object?): set<object> {
    if p == null then {} else {p}
  }

  /**
   * GpcWrapper.Free: release the hole flags, then the vertex block of every contour. The
   * contour-descriptor array itself is not released.
   */
  method Free(mem: CoTaskMemory, b: GpcPolygonBuffer)
    requires b.numContours > 0 ==> b.contour != null && b.numContours <= b.contour.Length
    requires BlockOf(b.hole) + VertexBlocks(b.contour, b.numContours) <= mem.live
    requires b.contour != null ==> DistinctBlocks(b.contour, b.numContours)
    modifies mem
    ensures mem.live == old(mem.live) - BlockOf(b.hole) - VertexBlocks(b.contour, b.numContours)
  {
    mem.FreeCoTaskMem(b.hole);
    var i := 0;
    while i < b.numContours
      invariant 0 <= i && (i <= b.numContours || i == 0)
      invariant mem.live == old(mem.live) - BlockOf(b.hole) - VertexBlocks(b.contour, i)
    {
      var vertex := b.contour[i].vertex;
      VertexBlocksStep(b.contour, i, b.numContours);
      mem.FreeCoTaskMem(vertex);
      i := i + 1;
    }
    assert VertexBlocks(b.contour, b.numContours) == VertexBlocks(b.contour, i);
  }

  /** The vertex block of descriptor i is still live while descriptors before it are released. */
  lemma VertexBlocksStep(lists: array<GpcVertexList>, i: int, n: int)
    requires 0 <= i < n <= lists.Length && DistinctBlocks(lists, n)
    ensures VertexBlocks(lists, i + 1) == VertexBlocks(lists, i) + BlockOf(lists[i].vertex)
    ensures lists[i].vertex != null ==> lists[i].vertex in VertexBlocks(lists, n)
    ensures lists[i].vertex != null ==> lists[i].vertex !in VertexBlocks(lists, i)
  {
    assert lists[..i + 1] == lists[..i] + [lists[i]];
    if lists[i].vertex != null {
      assert lists[..n][i] == lists[i];
    }
  }

  /**
   * Release: what Free does, and then the contour-descriptor array as well, so that every
   * block ToNative allocated is returned.
   */
  method Release(mem: CoTaskMemory, b: GpcPolygonBuffer)
    requires b.numContours > 0 ==> b.contour != null && b.numContours <= b.contour.Length
    requires BlockOf(b.hole) + BlockOf(b.contour) + VertexBlocks(b.contour, b.numContours) <= mem.live
    requires b.contour != null ==> DistinctBlocks(b.contour, b.numContours)
    modifies mem
    ensures mem.live == old(mem.live) - BlockOf(b.hole) - VertexBlocks(b.contour, b.numContours) - BlockOf(b.contour)
  {
    Free(mem, b);
    mem.FreeCoTaskMem(b.contour);
  }

  /**
   * The buffer lifecycle of Clip, ClipToTriangleStrip and ComputeTriangleStrip around an
   * input polygon, as written: marshal it, hand it to the clipping engine, then Free it.
   * The engine is native code and is not modelled; reading the input buffer back with
   * ToManaged stands in for the engine's read of it. The callers themselves read only the
   * engine's result buffer (lines 30, 45 and 61), never their input buffers. What the
   * engine reads is the polygon, but one block stays allocated after every call: the
   * contour-descriptor array.
   */
  method MarshalAndFree(mem: CoTaskMemory, polygon: GpcPolygon) returns (result: GpcPolygon)
    requires |polygon.contour| <= |polygon.hole|
    modifies mem
    ensures result == GpcPolygon(polygon.hole[..|polygon.contour|], polygon.contour)
    ensures exists leaked: object :: leaked !in old(mem.live) && mem.live == old(mem.live) + {leaked}
  {
    var b := ToNative(mem, polygon);
    result := ToManaged(b);
    RoundTripValues(polygon, b);
    Free(mem, b);
    assert mem.live == old(mem.live) + {b.contour as object};
  }

  /**
   * The same lifecycle with Release, again with ToManaged in place of the engine's read:
   * the round trip holds and no block stays allocated.
   */
  method MarshalAndRelease(mem: CoTaskMemory, polygon: GpcPolygon) returns (result: GpcPolygon)
    requires |polygon.contour| <= |polygon.hole|
    modifies mem
    ensures result == GpcPolygon(polygon.hole[..|polygon.contour|], polygon.contour)
    ensures mem.live == old(mem.live)
  {
    var b := ToNative(mem, polygon);
    result := ToManaged(b);
    RoundTripValues(polygon, b);
    Release(mem, b);
  }
}
