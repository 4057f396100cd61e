# GPC polygon-clipping wrapper: verified model of the managed side

`MyGPCWrapper.cs` wraps the General Polygon Clipper (GPC), a native library. It clips
polygon sets (contours, each flagged as boundary or hole) and decomposes them into
triangle strips. The clipping arithmetic is native and is not modelled. This project models
the managed logic around it, in four modules:

- `Geometry` (`geometry.dfy`): points (`V2d`), contours (`Polygon2d`), triangles and
  axis-aligned boxes (`Box2d`, with `Invalid` as the empty box). It also has `ExtendBy` and
  the bounding box of a point sequence. Coordinates are exact reals, because the wrapper only
  compares and orders them.
- `Polygons` (`polygons.dfy`): the managed polygon set `GpcPolygon`, a pair of sequences
  (hole flags, contours). It has the two single-contour constructors, `Empty`,
  `ComputeBoundingBox2d` (a loop, proved against a reference box of all non-hole points) and
  `CopyWithoutHoles`.
- `Triangulation` (`triangulation.dfy`): the two strip assemblies. `ComputeTriangulation`
  fills a triangle array. `ComputeTriangulationIndexed` builds a vertex list without
  duplicates, then emits index triples from the rolling pair `(i0, i1)`. Both are proved
  against one reference, `FlatTriangles`. Read back through the vertex list, the index
  triples are exactly the flat triangles.
- `GpcWrapper` (`gpc_wrapper.dfy`): the native buffer layout. `gpc_polygon`,
  `gpc_vertex_list` and `gpc_tristrip` are datatypes holding nullable arrays in place of
  pointers. The `CoTaskMemory` class stands for `Marshal.AllocCoTaskMem`/`FreeCoTaskMem` and
  records which blocks are live. The model covers `ToNative`, both `ToManaged` overloads and
  `Free`, plus the marshal round trip and the memory balance of a marshal/read/free cycle.

Behaviours of the code that shape the model:

- A strip with fewer than two points makes both triangulation methods fail. Line 288 sums
  (length − 2) over the strips without clamping to size the triangle array, and lines
  326-327 read `s[0]` and `s[1]` of every strip. Both methods therefore require every strip
  to have at least two points. `FlatTrianglesLength` shows that the clamped sum is the
  number of triangles for any strips. `TotalTriangleCountExact` shows that the unclamped sum
  matches it once every strip has two points.
- `Free` never releases the contour-descriptor block (see Findings).
- Nothing compares the number of contours with the number of hole flags. Each member
  requires what its own indexing needs:
  - `ToNative` reads a flag for every contour, so it needs at least as many flags as
    contours.
  - `ComputeBoundingBox2d` runs over the flags and reads the contour of the same index only
    when the flag is not a hole. So every non-hole flag needs a contour at its index, while
    flags beyond the last contour are fine as long as they are holes (`ContoursPresent`).
  - `CopyWithoutHoles` filters the contours by the flag of the same index, so it needs at
    least as many flags as contours.

## Model

| member | source | states |
|---|---|---|
| `Polygons.FromPoints` | src/VolumeSelection/MyGPCWrapper.cs:255-259 | one contour made of the given points, with the given hole flag (by default not a hole); flags and contours have equal length |
| `Polygons.FromPolygon` | src/VolumeSelection/MyGPCWrapper.cs:261-265 | one contour (the given polygon), with the given hole flag (by default not a hole); flags and contours have equal length |
| `Polygons.Empty` | src/VolumeSelection/MyGPCWrapper.cs:267-273 | no contours and no flags |
| `Polygons.ComputeBoundingBox2d` | src/VolumeSelection/MyGPCWrapper.cs:275-282 | extending an invalid box by the box of each non-hole contour gives the bounding box of all points on non-hole contours; it needs a contour only for the non-hole flags |
| `Polygons.DanglingHoleFlags` | src/VolumeSelection/MyGPCWrapper.cs:279-280 | hole flags with no contour are accepted and ignored: one boundary contour plus a dangling hole flag has that contour's box, and a lone hole flag has `Invalid` |
| `Polygons.BoundingBoxCovers` | src/VolumeSelection/MyGPCWrapper.cs:275-282 | every point of every non-hole contour lies inside the box |
| `Polygons.BoundingBoxInvalid` | src/VolumeSelection/MyGPCWrapper.cs:275-282 | the box is `Invalid` exactly when every non-hole contour is empty, which covers the empty and the all-hole set |
| `Polygons.HolesDoNotChangeBox` | src/VolumeSelection/MyGPCWrapper.cs:279-280 | two sets with the same flags that agree on their non-hole contours have the same box, whatever their hole contours are |
| `Polygons.AddingHoleKeepsBox` | src/VolumeSelection/MyGPCWrapper.cs:279-280 | appending a hole contour never changes the box |
| `Polygons.SingleContourBox` | src/VolumeSelection/MyGPCWrapper.cs:261-265 | a single boundary contour has exactly its own box; a single hole gives `Invalid` |
| `Polygons.EmptyBox` | src/VolumeSelection/MyGPCWrapper.cs:267-273 | the empty set has the `Invalid` box |
| `Polygons.SquareWithOutsideHoleBox` | src/VolumeSelection/MyGPCWrapper.cs:275-282 | a 4×4 square plus a hole lying wholly outside it has the box (0,0)-(4,4) |
| `Polygons.CopyWithoutHoles` | src/VolumeSelection/MyGPCWrapper.cs:342-351 | every flag of the result is false, and flags and contours have equal length; a contour is in the result exactly when it sits at a non-hole index of the input |
| `Polygons.CopyWithoutHolesOrder` | src/VolumeSelection/MyGPCWrapper.cs:345 | the result is the input's contours at a strictly increasing list of indices, and that list holds exactly the non-hole indices |
| `Polygons.CopyWithoutHolesIdempotent` | src/VolumeSelection/MyGPCWrapper.cs:342-351 | removing holes twice is the same as removing them once |
| `Polygons.CopyWithoutHolesKeepsBox` | src/VolumeSelection/MyGPCWrapper.cs:342-351 | removing the holes leaves the bounding box unchanged |
| `Polygons.CopyWithoutHolesSingle` | src/VolumeSelection/MyGPCWrapper.cs:342-351 | a single boundary contour is kept as it is; a single hole gives `Empty` |
| `Geometry.BoundsOfConcat` | src/VolumeSelection/MyGPCWrapper.cs:279-280 | the box of two point sequences joined is the extension of their two boxes, so the per-contour loop equals the box of all points |
| `Geometry.BoundsOfTight` | src/VolumeSelection/MyGPCWrapper.cs:280 | each side of the box of a non-empty point sequence is attained by one of its points |
| `Triangulation.StripTrianglesAt` | src/VolumeSelection/MyGPCWrapper.cs:293-299 | a strip of length k yields k − 2 triangles, and the one at position i − 2 is the step-i triangle |
| `Triangulation.FlatTrianglesLength` | src/VolumeSelection/MyGPCWrapper.cs:291-300 | the number of flat triangles is the sum of max(0, L − 2) over the strip lengths L |
| `Triangulation.TotalTriangleCountExact` | src/VolumeSelection/MyGPCWrapper.cs:288 | if every strip has at least two points, the array size of line 288 (the sum of L − 2) is exactly the number of triangles |
| `Triangulation.FlatTrianglesAt` | src/VolumeSelection/MyGPCWrapper.cs:291-300 | strips are emitted in order and each strip's triangles are contiguous. The step-i triangle of strip k sits right after the triangles of the earlier strips. An even step gives (s[i-2], s[i-1], s[i]), an odd step gives (s[i-1], s[i-2], s[i]) |
| `Triangulation.ConsistentWinding` | src/VolumeSelection/MyGPCWrapper.cs:295-298 | consecutive triangles of a strip share the edge between points i − 1 and i and walk it in opposite directions |
| `Triangulation.StepOrientation` | src/VolumeSelection/MyGPCWrapper.cs:295-298 | the signed area of an emitted triangle equals the raw triple's on even steps and is negated on odd steps |
| `Triangulation.UniformOrientation` | src/VolumeSelection/MyGPCWrapper.cs:295-298 | suppose the raw triples of a strip alternate their turning direction, as in a triangle strip. Then every emitted triangle has the orientation of the first one |
| `Triangulation.ComputeTriangulation` | src/VolumeSelection/MyGPCWrapper.cs:285-302 | the array has the length computed at line 288 and holds exactly the flat triangles, in order |
| `Triangulation.DedupProperties` | src/VolumeSelection/MyGPCWrapper.cs:312-322 | the deduplicated list has no duplicates and holds exactly the input's points. Its points appear in the order of their first occurrence |
| `Triangulation.CollectVertices` | src/VolumeSelection/MyGPCWrapper.cs:306-322 | the vertex list is the strip points deduplicated in first-occurrence order. The dictionary maps exactly the listed points, each to its position in the list |
| `Triangulation.EmitIndices` | src/VolumeSelection/MyGPCWrapper.cs:324-337 | the code emits 3 × the sum of (L − 2) indices, each below the vertex count. Read back through the vertex list, the index triples are exactly the flat triangles |
| `Triangulation.EmitStrip` | src/VolumeSelection/MyGPCWrapper.cs:326-336 | one strip adds 3 × (L − 2) indices, each below the vertex count. Read back through the vertex list, they are exactly that strip's triangles in step order, with the winding flip on odd steps |
| `Triangulation.ComputeTriangulationIndexed` | src/VolumeSelection/MyGPCWrapper.cs:304-340 | the vertex list has no duplicates, holds every strip point and nothing else, in first-occurrence order. Equal points get one index. The triples read back to the flat triangles |
| `GpcWrapper.CoTaskMemory.Alloc` | src/VolumeSelection/MyGPCWrapper.cs:85 | returns a fresh block of the requested size and records it as live |
| `GpcWrapper.CoTaskMemory.FreeCoTaskMem` | src/VolumeSelection/MyGPCWrapper.cs:165 | releases a live block, at most once; releasing the null pointer does nothing |
| `GpcWrapper.NewVertexBlock` | src/VolumeSelection/MyGPCWrapper.cs:85-94 | a fresh live block holding the contour's vertices in order |
| `GpcWrapper.ToNative` | src/VolumeSelection/MyGPCWrapper.cs:70-100 | the contour count is the number of contours. The flags are stored as 1 for a hole and 0 otherwise. Each contour has its own fresh vertex block holding its vertices in order. Exactly the flag, descriptor and vertex blocks become live |
| `GpcWrapper.FillContours` | src/VolumeSelection/MyGPCWrapper.cs:81-97 | descriptor k holds contour k's point count and a fresh vertex block of its own with contour k's vertices in order. Exactly those vertex blocks become live |
| `GpcWrapper.EncodingRoundTrip` | src/VolumeSelection/MyGPCWrapper.cs:126-130 | a flag stored as 1/0 and read back as "non-zero" is the original flag; vertices copied out and back are the original points |
| `GpcWrapper.ReadVertices` | src/VolumeSelection/MyGPCWrapper.cs:122-128 | the points are exactly the vertex list's vertices, in order |
| `GpcWrapper.ToManaged` | src/VolumeSelection/MyGPCWrapper.cs:102-136 | one contour and one flag per native contour. Vertices are copied in order, and a flag counts as a hole when it is non-zero. Zero contours give `Empty` |
| `GpcWrapper.ToManagedTristrip` | src/VolumeSelection/MyGPCWrapper.cs:138-161 | one point sequence per native strip, with the vertices in order |
| `GpcWrapper.MarshalRoundTrip` | src/VolumeSelection/MyGPCWrapper.cs:70-136 | `ToManaged(ToNative(p))` has the same contours and vertices in order, and the same flags. It equals `p` when flags and contours have equal length |
| `GpcWrapper.Free` | src/VolumeSelection/MyGPCWrapper.cs:163-173 | exactly the flag block and the vertex blocks leave the live set; the descriptor block stays |
| `GpcWrapper.Release` | src/VolumeSelection/MyGPCWrapper.cs:163-173 | the flag block, the vertex blocks and the descriptor block all leave the live set |
| `GpcWrapper.MarshalAndFree` | src/VolumeSelection/MyGPCWrapper.cs:54-68 | marshaling an input and then calling `Free`, with a read of the input buffer in place of the native engine's read, gets the polygon back, but exactly one block allocated by the call stays live |
| `GpcWrapper.MarshalAndRelease` | src/VolumeSelection/MyGPCWrapper.cs:54-68 | the same cycle with `Release` gets the polygon back and leaves the live set as it was |

## Findings

| source | as written | input that shows it | evidently intended | confidence | as-written member | corrected member |
|---|---|---|---|---|---|---|
| src/VolumeSelection/MyGPCWrapper.cs:163-173 | `Free` releases the hole-flag block and every vertex block. It never releases the contour-descriptor block that `ToNative` allocates at line 79 | any polygon set, including `Empty`: after `ToNative` then `Free`, the descriptor block is still allocated. Every `Clip`, `ClipToTriangleStrip` and `ComputeTriangleStrip` call leaks one block per input polygon | every block `ToNative` allocates is released | high; not executed | `GpcWrapper.MarshalAndFree` (with `GpcWrapper.Free`) | `GpcWrapper.MarshalAndRelease` (with `GpcWrapper.Release`) |

## Left out

- The native library calls are foreign code and are not modelled. They are
  `gpc_polygon_clip`, `gpc_tristrip_clip`, `gpc_polygon_to_tristrip`, `gpc_free_polygon` and
  `gpc_free_tristrip` (lines 180-200).
- `Clip`, `ClipToTriangleStrip` and `ComputeTriangleStrip` (lines 25-68) only orchestrate
  those calls. Their handling of input buffers is modelled by `MarshalAndFree`. There the
  engine call is replaced by a `ToManaged` read of the input buffer. The callers themselves
  read only the engine's result buffer (lines 30, 45 and 61), which is not modelled. The triangulation methods take the strips as a parameter instead of calling
  `ComputeTriangleStrip`.
- The extension wrappers in `GpcPolygonExtensions` and `Polygon2dExternalExtensions`
  (lines 376-481) only pass an operation code to `Clip`. The same goes for the
  `GpcOperation`/`gpc_op` codes (lines 202-208, 242-248).
- `Scaled` and `Copy` (lines 353-373) are not modelled. `Scaled` multiplies doubles. `Copy`
  is the identity on the value model, because contours are values here.
- The byte layout is abstracted to typed arrays: `SizeOf` strides, `StructureToPtr`,
  `PtrToStructure`, `Marshal.Copy` and the `unsafe` pointer walk. Allocation failure, which
  the code does not handle, is not modelled. Neither is the overflow of
  `count * SizeOf(...)` in 32-bit arithmetic.
- Floating point is not modelled: coordinates are exact reals. The dictionary of
  `ComputeTriangulationIndexed` uses `V2d` equality, which on doubles treats NaN and
  signed zero specially. The model uses plain equality on reals.
- Counts (`num_contours`, `num_vertices`, `num_strips`) are unbounded integers, not 32-bit
  ones.
- The source's `GpcPolygon` is a struct of two arrays, which could be null or shared
  between copies. The model treats it as a value holding two sequences. A default struct
  with null arrays, and aliasing between copies, are not modelled.
- `Box2d` is modelled as `Invalid` or a min/max pair. The library's encoding of `Invalid`
  as an inverted infinite box is left out, because `ExtendBy` treats both the same.
- `ToManaged(gpc_tristrip)` returns an array of arrays in the source. The model returns a
  sequence of point sequences.
- `ToManaged` and `ToManagedTristrip` require a readable buffer, and that excludes a
  negative `num_contours`, `num_vertices` or `num_strips`. On such a count the source
  throws `OverflowException` when it allocates the managed arrays (lines 108-109, 122, 141
  and 147). The model does not represent that exception.
