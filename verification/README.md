# three-components: skinned tube builder, row flip and frustum tables in Dafny

This project models three self-contained pieces of jsantell/three-components
and proves what they do.

- **LineGeometry** (`skeleton.dfy`, `tube_mesh.dfy`, `line_geometry.dfy`).
  The constructor merges the caller's options over the defaults. `_createGeometry`
  then drains a FIFO queue that starts with the root node, and each dequeued node
  does the following:
  - it enqueues its children flagged `isBone`;
  - it becomes the next bone;
  - it gets a ring of `radialSegments` vertices with its colour, `v` = 1, and skinning bound to its own bone with weight 1;
  - unless it is the root, it is stitched to its parent's ring with `2·radialSegments` triangles.

  The loop is modelled as a Dafny method with the source's queue, the two
  maps keyed by node and the running `vertexCount`. It is proved to produce
  exactly `TubeMesh.Build(Skeleton.Bfs(root), ...)`. `Bfs` is the breadth-first
  order; it is shown to visit every reachable bone exactly once, level by
  level. `Build` is the mesh specification, and its lengths, per-vertex
  attributes, per-quad layout and index bounds are proved as lemmas.
- **flipBufferY** (`texture_utils.dfy`). The three nested loops that
  exchange RGBA rows of a `Uint8Array` in place are modelled on an
  `array<Byte>`, with typed-array semantics: a read past the end gives 0 and
  a write past the end is dropped. The loop as written pairs row `y` with row
  `height - y`, not `height - 1 - y` (see Findings). Both the as-written and
  the intended loop are modelled and their effect is proved row by row.
- **FrustumClipping** (`frustum_clipping.dfy`). The plane and corner enums,
  the `POINT_COORDS` and `PLANE_POINTS` tables and `getPointsForPlane` are
  modelled with their consistency proved: names match coordinates, and each
  row is exactly its face's four corners in "backwards Z" order. `update`
  is a method of a class. Its two loops rewrite the points and the planes.
  Unprojection and plane construction are parameters of the method.

`wrappers.dfy` holds the `Option` type.

## Model

| member | source | states |
|---|---|---|
| `TubeMesh.WithDefaults` | src/LineGeometry.js:12-21 | each of `radialSegments`, `width`, `color` is the caller's value when supplied, otherwise 4, 0.1 and black |
| `TubeMesh.Radius` | src/LineGeometry.js:71 | definition: a node's radius is half its own `width` when it has one, otherwise half the configured width |
| `TubeMesh.RingColor` | src/LineGeometry.js:72 | definition: a ring's colour is the node's own `color` when it has one, otherwise the configured colour |
| `TubeMesh.RingVertex` | src/LineGeometry.js:93-114 | definition: vertex i of a ring has the supplied position and `u`, the ring colour, `v` = 1, skin index (bone, 0, 0, 0) and skin weights (1, 0, 0, 0) |
| `TubeMesh.Quad` | src/LineGeometry.js:120-128 | definition: stitching pass x pushes triangles (a, d, b) and (d, c, b), where a and d are slots x and x + 1 mod r of the node's ring and b and c the same slots of the parent's ring |
| `TubeMesh.Build` | src/LineGeometry.js:85-130 | definition: the mesh of a bone order is every bone's ring in order, plus the stitching of every bone after the first to its parent's ring |
| `Skeleton.BonesOf` | src/LineGeometry.js:63-68 | the children enqueued are exactly those flagged `isBone` (membership both ways), and there are no more of them than children |
| `Skeleton.BonesOfInOrder` | src/LineGeometry.js:63-68 | the enqueued children keep their order and multiplicity: there are as many as there are bone children, and the bone child at position k is enqueued at the position that counts the bones before it |
| `Skeleton.BoneChildren` | src/LineGeometry.js:63-68 | definition: the children a dequeued node pushes onto the queue are `BonesOf` its `children` |
| `Skeleton.IndexOfId` | src/LineGeometry.js:118 | the lookup by node finds the first recorded bone with that identity, or reports none |
| `Skeleton.ParentSlot` | src/LineGeometry.js:117-118 | definition: the bone index whose ring a node is stitched to is the position of the first recorded bone with the node's parent id; the root, which has no parent, gets none |
| `Skeleton.Bfs` | src/LineGeometry.js:45 | the visit order starts with the root, so the root is always visited |
| `Skeleton.BfsFrom` | src/LineGeometry.js:58-68 | definition: draining a FIFO queue visits its head, then drains the rest of the queue with the head's bone children appended at the back |
| `Skeleton.BfsFromAppend` | src/LineGeometry.js:58-68 | draining `q + r` visits `q` in order, then drains `r` followed by the bone children of `q` (FIFO discipline) |
| `Skeleton.BfsLevelOrder` | src/LineGeometry.js:58-68 | the queue is visited in order before the next level, i.e. its members' bone children in given order |
| `Skeleton.ForestStep` | src/LineGeometry.js:58-68 | each visit removes exactly the dequeued node from the nodes still to visit, so the queue loop ends |
| `Skeleton.BfsPermutesPreorder` | src/LineGeometry.js:58-68 | the breadth-first order is a permutation of the depth-first preorder over bone children |
| `Skeleton.BfsVisitsEachOnce` | src/LineGeometry.js:58-68 | on a tree without repeated nodes every reachable node is visited, none other, and none twice |
| `Skeleton.BfsIdsDistinct` | src/LineGeometry.js:58-68 | on a well-formed tree no node is visited twice |
| `Skeleton.BfsNonRootAreBones` | src/LineGeometry.js:63-65 | every visited node after the root is flagged `isBone` |
| `Skeleton.ParentsFirstAppend` | src/LineGeometry.js:87-91 | recording a node whose parent is already recorded keeps every bone's parent before it |
| `TubeMesh.RingStartIsProduct` | src/LineGeometry.js:93-94 | the running vertex count gives bone b the ring starting at b·radialSegments |
| `TubeMesh.NextSlotIsMod` | src/LineGeometry.js:121 | `(x + 1) % radialSegments` is the next slot, wrapping the last slot to 0 |
| `TubeMesh.SlotBelow` | src/LineGeometry.js:93-94 | every slot of an earlier bone's ring is numbered below a later ring's first vertex |
| `TubeMesh.QuadsLength` | src/LineGeometry.js:120-129 | the stitching loop pushes six indices per pass |
| `TubeMesh.QuadsAt` | src/LineGeometry.js:120-129 | pass x pushes entries 6x..6x+5: triangles (a, d, b) then (d, c, b) |
| `TubeMesh.QuadsBelow` | src/LineGeometry.js:117-129 | when the parent's bone precedes the child's, every stitched index names an existing vertex |
| `TubeMesh.BuildAppend` | src/LineGeometry.js:85-130 | one more visit appends the node's ring and, except for the root, its stitching to the parent's ring |
| `TubeMesh.VerticesGrow` | src/LineGeometry.js:105-114 | the vertex arrays only grow: those after k visits begin those after all visits |
| `TubeMesh.IndicesGrow` | src/LineGeometry.js:127-128 | the index array only grows: the one after k visits begins the final one |
| `TubeMesh.BuildSized` | src/LineGeometry.js:105-130 | r vertices per bone and 6r indices per bone after the root: the vertex count is the running count after n bones, and the index count is 3·`TriangleCount` |
| `TubeMesh.BuildSizedAsProducts` | src/LineGeometry.js:105-130 | the same sizes as products: exactly `n·r` vertices and, for n ≥ 1 bones, `6·((n−1)·r)` indices |
| `TubeMesh.BuildVertexAt` | src/LineGeometry.js:93-115 | vertex b·r+i is slot i of bone b's ring: its node's colour or the default, v = 1, skin index (b,0,0,0), weights (1,0,0,0) summing to 1 |
| `TubeMesh.BuildQuadAt` | src/LineGeometry.js:117-129 | quad (b−1)·r+x of `indices` joins slots x and next of bone b's ring to the same slots of its parent's ring, in the source's winding |
| `TubeMesh.BuildIndicesInRange` | src/LineGeometry.js:117-130 | when parents are visited before children, every index is below the vertex count |
| `Geometry.VisitStep` | src/LineGeometry.js:58-91 | one visit keeps the loop invariant: visit order, linked queue, exact bone-index map, parents first |
| `Geometry.VisitHead` | src/LineGeometry.js:117-118 | the dequeued node is the root exactly on the first visit; later, its parent's bone index is recorded |
| `Geometry.IndexStep` | src/LineGeometry.js:87-91 | recording the new bone keeps the bone-index map exact and gives the parent's entry |
| `Geometry.MeshStep` | src/LineGeometry.js:85-130 | the ring and stitching of one visit turn the mesh of the earlier bones into that of one more |
| `Geometry.LineGeometry.constructor` | src/LineGeometry.js:19-33 | `bones` is the breadth-first order from the root and the geometry is `Build` of it under the merged options |
| `Geometry.LineGeometry.CreateGeometry` | src/LineGeometry.js:35-142 | the queue loop returns the breadth-first order with parents first, and exactly the mesh `Build` specifies |
| `Geometry.LineGeometry.AddBone` | src/LineGeometry.js:85-130 | one visit records the bone index and ring, advances `vertexCount` by r, and extends the mesh by one bone |
| `Geometry.LineGeometry.PushRing` | src/LineGeometry.js:93-115 | the vertex loop pushes the ring of the bone and records vertex numbers b·r .. b·r+r−1 |
| `Geometry.LineGeometry.StitchRing` | src/LineGeometry.js:117-129 | the stitching loop pushes exactly the quads joining the two rings |
| `Geometry.LineGeometry.EnqueueBones` | src/LineGeometry.js:63-68 | the child loop appends the bone children, in their given order, to the queue |
| `TextureUtils.ExchangePixel` | src/TextureUtils.js:29-34 | the innermost loop exchanges one pixel's four bytes with typed-array reads and writes |
| `TextureUtils.Read` | src/TextureUtils.js:30-31 | definition: a read past the end of the `Uint8Array` gives 0, because `undefined` is stored as 0 |
| `TextureUtils.Write` | src/TextureUtils.js:32-33 | definition: a write past the end is dropped; the length never changes |
| `TextureUtils.Exchange` | src/TextureUtils.js:30-33 | definition: one innermost pass reads both bytes, then writes each into the other's place, under those out-of-range rules |
| `TextureUtils.Partner` | src/TextureUtils.js:28 | definition: the row exchanged with row y is height − y as written (one past the end for y = 0) and height − 1 − y as intended |
| `TextureUtils.Passes` | src/TextureUtils.js:25-34 | definition: after n outer passes, pass y has exchanged the width·4 bytes of row y with those of its partner row, in order y = 0 .. n − 1 |
| `TextureUtils.ExchangeRows` | src/TextureUtils.js:26-35 | the middle loop exchanges byte x·4+i of one row with the same byte of the partner row |
| `TextureUtils.FlipBufferYAsWritten` | src/TextureUtils.js:22-37 | the loop as written leaves the buffer as `FlipAsWritten` of the old contents |
| `TextureUtils.FlipBufferY` | src/TextureUtils.js:22-37 | the intended loop leaves the buffer as `Flipped` of the old contents |
| `TextureUtils.ReadBack` | src/TextureUtils.js:76-81 | a fresh buffer of width·height·4 bytes receives the pixels and is flipped only when `flipY` is set |
| `TextureUtils.SwappedStep` | src/TextureUtils.js:29-33 | one more innermost pass exchanges one more pair of bytes |
| `TextureUtils.RowStartIsProduct` | src/TextureUtils.js:27-28 | the row offset `y * width * 4` is where row y begins |
| `TextureUtils.BufferSize` | src/TextureUtils.js:76 | a buffer of width·height·4 bytes holds exactly `height` rows |
| `TextureUtils.RowExchange` | src/TextureUtils.js:26-34 | one outer pass trades rows y and p (0 from past the end) and keeps every other row |
| `TextureUtils.PassesAt` | src/TextureUtils.js:25-34 | after n outer passes each row holds its partner's old bytes once it or its partner had its pass, else its own |
| `TextureUtils.FlipAsWrittenRows` | src/TextureUtils.js:25-34 | as written: row 0 becomes zeros, and every other row r holds old row height − r |
| `TextureUtils.FlippedRows` | src/TextureUtils.js:22-37 | as intended: row r holds old row height − 1 − r |
| `TextureUtils.FlippedTwice` | src/TextureUtils.js:22-37 | flipping twice as intended restores the buffer |
| `TextureUtils.FlipAsWrittenTwice` | src/TextureUtils.js:25-34 | flipping twice as written restores rows 1..height−1 and leaves row 0 zero |
| `TextureUtils.FlipAsWrittenCounterexample` | src/TextureUtils.js:28 | for a 1×2 image with bytes 1..8, as written gives 0,0,0,0,5,6,7,8; as intended gives 5,6,7,8,1,2,3,4 |
| `FrustumClipping.CornerNamesMatchCoordinates` | src/FrustumClipping.js:18-37 | each corner enum's coordinates: TOP y=1, BOTTOM y=−1, LEFT x=−1, RIGHT x=1, FRONT z=−1, BACK z=1 |
| `FrustumClipping.PointCoordsAreTheCube` | src/FrustumClipping.js:28-37 | the eight coordinates are distinct and are exactly the sign combinations (±1, ±1, ±1) |
| `FrustumClipping.PlaneRowsAreFourDistinctCorners` | src/FrustumClipping.js:42-49 | each `PLANE_POINTS` row holds four distinct corner indices below 8 |
| `FrustumClipping.PlaneRowIsItsFace` | src/FrustumClipping.js:42-49 | a corner is in a plane's row iff it lies on that face: NEAR z=−1, FAR z=1, LEFT x=−1, RIGHT x=1, TOP y=1, BOTTOM y=−1 |
| `FrustumClipping.PlaneRowsAreBackwardsZ` | src/FrustumClipping.js:39-49 | entries 0,3 and entries 1,2 are opposite corners of the face; every other pair shares a side |
| `FrustumClipping.PlaneOrderVisitsEachPlaneOnce` | src/FrustumClipping.js:87 | the plane loop lists each of the six planes exactly once |
| `FrustumClipping.GetPointsForPlane` | src/FrustumClipping.js:51-52 | four points picked from the given ones, distinct whenever the given points are |
| `FrustumClipping.PointsForPlaneLieOnFace` | src/FrustumClipping.js:51-52 | picking from the clip-space corners gives four distinct cube corners on the plane's face |
| `FrustumClipping.PointsForPlaneOfMapped` | src/FrustumClipping.js:51-52 | picking from transformed corners gives the transforms of the face's k-th corners |
| `FrustumClipping.Corners` | src/FrustumClipping.js:79-84 | the first loop of `update` leaves eight points |
| `FrustumClipping.FacePlanes` | src/FrustumClipping.js:87-89 | the second loop of `update` leaves six planes |
| `FrustumClipping.FacePlaneFromOwnCorners` | src/FrustumClipping.js:87-89 | each plane is built from the unprojected images of its own face's four corners, taken in table order; those are four distinct cube corners lying on that face |
| `FrustumClipping.FrustumClipping.constructor` | src/FrustumClipping.js:63-72 | stores the renderer and camera, enables clipping, and ends in the state `update` produces |
| `FrustumClipping.FrustumClipping.Update` | src/FrustumClipping.js:78-92 | points become the unprojected corners, planes are rebuilt from their faces, and the renderer's `clippingPlanes` equals the new planes |

## Left out

- Vertex positions and the `u` coordinate of LineGeometry (src/LineGeometry.js:79-83, 95-105) are floating-point sine, cosine and quaternion arithmetic. They are not computed. A `Placement` parameter supplies each ring vertex's position and `u`, given the node, its radius (which is modelled), the slot and the segment count.
- The orientation choice at src/LineGeometry.js:78 is not modelled. A falsy `root` throws a TypeError at :63, before :78 is reached. The model's root is always a `Node` and does not represent that error, so the test at :78 is always false. `isTerminator` (:60-66) only feeds that test. `parentBoneIndex` (:111) is computed and never used.
- The three.js calls in the LineGeometry constructor are not modelled: `setIndex`, `setAttribute` and `computeVertexNormals` (src/LineGeometry.js:25-31). The model keeps the arrays as the `geometry` field.
- Float32 rounding of the attribute arrays is not modelled. The 16-bit width of the `skinIndex` attribute is not modelled either: bone indices are unbounded naturals.
- The five flat attribute arrays are grouped into one `Vertex` record per vertex. Their lengths (3, 3, 2, 4 and 4 numbers per vertex) follow from the vertex count.
- The ring's array is stored in `nodeToVertexIndices` when it is complete. The source stores it before filling it (src/LineGeometry.js:90). Nothing reads it in between.
- Radius, RingColor: the source tests for the key (`'width' in node`, `'color' in node` at src/LineGeometry.js:71-72), not for a value. A node whose `width` or `color` key is present with the value `undefined` takes the override branch: its radius is NaN, or `color.r` throws a TypeError at :106 once a ring vertex is pushed. `Node.width` and `Node.color` hold each key as absent or as a value, so that node is not represented.
- WithDefaults: a key the caller passes with the value `undefined` is copied by `Object.assign` at src/LineGeometry.js:21 and overrides the default. `Options` holds each key as absent or as a value, so that input is not represented. In the source, `radialSegments: undefined` makes `new Array(undefined)` a one-slot array and no ring or stitching pass runs. `color: undefined` throws a TypeError at :106 for every node without its own `color`. `width: undefined` gives a NaN radius.
- Input validation is not modelled because src/LineGeometry.js has none, and the model follows the code: any natural `radialSegments` below 2^32, including 0, runs the loops as written.
- A negative, fractional, NaN or infinite `radialSegments`, or one of 2^32 or more, makes `new Array(radialSegments)` at src/LineGeometry.js:85 throw a RangeError. The model types `radialSegments` as a natural number, so it does not represent that error.
- Node identity is the `id` field. `CreateGeometry` requires what the source silently assumes: bone children's `parent` is the node that holds them, and no node is reachable twice. A cyclic hierarchy, on which the source loops forever, cannot be built from the datatype.
- The canvas and WebGL parts of src/TextureUtils.js are not modelled: `pixelBufferToDataURL`, the framebuffer binding and format checks of `textureToDataURL`, and `readPixels`. The pixels the renderer writes are a parameter of `ReadBack`.
- ReadBack: it flips with the corrected `FlipBufferY` rather than the as-written loop that src/TextureUtils.js:80 and :140 call. The as-written behaviour is proved separately (see Findings).
- The outer loop guard `y < height / 2` uses floating-point division. It is modelled as `2·y < height`, which holds for exactly the same integers y.
- Unprojection through the camera and `Plane.setFromCoplanarPoints` are parameters of `Update` (src/FrustumClipping.js:83, :88). Three.js is not part of this model. The plane function receives all four points that the source spreads into the call.
- Planes and points are values, not shared objects. So the aliasing between `this.planes` and the shallow copy in `renderer.clippingPlanes` (src/FrustumClipping.js:91) is not captured. The same `Plane` objects appear in both, so a later `update` also mutates the renderer's list in place.
- The constructor's `new Vector3(POINT_COORDS[i])` (src/FrustumClipping.js:69) is not modelled; it is a parameter `blankPoint`. `update` overwrites every point before anything reads it.
- The counterclockwise winding mentioned in the comment at src/FrustumClipping.js:39-41 is not stated as a cross product; only the combinatorial "backwards Z" layout of each row is proved.
- GetPointsForPlane: its own contract states that the picks come from the given points and keep them distinct. It does not state that the k-th pick is `points[PLANE_POINTS[plane][k]]` for arbitrary points. That equality is stated for the unprojected corners by `PointsForPlaneOfMapped` and `FacePlaneFromOwnCorners`.
- The `enabled` flag is set by the constructor and never read by the modelled code.
- HeightToNormalMapGenerator, ProjectionMaterials, FrustumGeometry, utils, App, WireframeHelper and index are not part of this model. They are GPU shaders, three.js shader patching, float matrix code and application glue.

## Findings

| source | as written | input that shows it | evidently intended | confidence | as-written member | corrected member |
|---|---|---|---|---|---|---|
| src/TextureUtils.js:28 | row `y` is exchanged with row `height - y`; for y = 0 that row is past the end, so row 0 reads `undefined` (stored as 0) and the write is dropped | width 1, height 2, bytes 1..8 becomes 0,0,0,0,5,6,7,8 | partner row `height - 1 - y`, giving 5,6,7,8,1,2,3,4 (rows reversed) | high (proved about the model; not executed) | `TextureUtils.FlipAsWrittenCounterexample` | `TextureUtils.FlippedTwice` |
