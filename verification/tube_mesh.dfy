/**
 * What LineGeometry builds from the bones it visits (src/LineGeometry.js:12-21,
 * 70-130), as functions of the visit order. The builder method in
 * line_geometry.dfy is proved to produce exactly `Build(Bfs(root), ...)`.
 *
 * The source pushes plain numbers onto six flat arrays. This model keeps
 * `indices` flat (three vertex numbers per triangle) and gathers what the
 * five vertex attribute arrays hold about one vertex into one `Vertex`
 * record: vertex v is entries 3v..3v+2 of `vertices` and `colors`, 2v..2v+1
 * of `uvs` and 4v..4v+3 of `skinIndices` and `skinWeights`.
 */
module TubeMesh {
  import opened Wrappers
  import opened Skeleton

  /** The options `_createGeometry` reads. */
  datatype Config = Config(radialSegments: nat, width: real, color: Color)

  /** The options a caller may pass to the constructor; a key the caller leaves out is None. */
  datatype Options = Options(radialSegments: Option<nat>, width: Option<real>, color: Option<Color>)

  /** Four radial segments, width 0.1, colour 0x000000. */
  const DEFAULTS: Config := Config(4, 0.1, Color(0.0, 0.0, 0.0))

  /** `Object.assign({}, DEFAULTS, config)`: every key the caller supplies wins over the default. */
  function WithDefaults(options: Options): (c: Config)
    ensures options.radialSegments.Some? ==> c.radialSegments == options.radialSegments.value
    ensures options.radialSegments.None? ==> c.radialSegments == 4
    ensures options.width.Some? ==> c.width == options.width.value
    ensures options.width.None? ==> c.width == 0.1
    ensures options.color.Some? ==> c.color == options.color.value
    ensures options.color.None? ==> c.color == Color(0.0, 0.0, 0.0)
  {
    Config(
      if options.radialSegments.Some? then options.radialSegments.value else DEFAULTS.radialSegments,
      if options.width.Some? then options.width.value else DEFAULTS.width,
      if options.color.Some? then options.color.value else DEFAULTS.color)
  }

  /** Half the node's own `width` when it has one, else half the configured width. */
  function Radius(n: Node, config: Config): real
  {
    if n.width.Some? then n.width.value / 2.0 else config.width / 2.0
  }

  /** The node's own `color` when it has one, else the configured colour. */
  function RingColor(n: Node, config: Config): Color
  {
    if n.color.Some? then n.color.value else config.color
  }

  datatype Vec3 = Vec3(x: real, y: real, z: real)

  /** World position and `u` texture coordinate of one ring vertex. */
  datatype RingPoint = RingPoint(position: Vec3, u: real)

  /**
   * Where ring vertex `i` of node `n` lands for a given radius and number of
   * radial segments. The source computes it with sine and cosine of
   * i/radialSegments of a turn, the node's world quaternion and world
   * position; this model does not compute it and takes it as a parameter.
   */
  type Placement = (Node, real, nat, nat) -> RingPoint

  /** What the five attribute arrays hold about one vertex. */
  datatype Vertex = Vertex(
    position: Vec3,
    color: Color,
    uv: (real, real),
    skinIndex: (nat, nat, nat, nat),
    skinWeight: (real, real, real, real))

  /** The vertices in vertex-number order, and the triangle list. */
  datatype Mesh = Mesh(vertices: seq<Vertex>, indices: seq<int>)

  const EMPTY: Mesh := Mesh([], [])

  /**
   * The first vertex number of the ring of bone b: r vertices for each bone before it.
   * Summed rather than multiplied, as the running `vertexCount` does; `TextureUtils.RowStart`
   * is the same shape, kept there so that module stands alone.
   */
  function RingStart(b: nat, r: nat): nat
  {
    if b == 0 then 0 else RingStart(b - 1, r) + r
  }

  /** The vertex number of slot `i` of the ring of bone `boneIndex`. */
  function Slot(boneIndex: nat, i: nat, r: nat): nat
  {
    RingStart(boneIndex, r) + i
  }

  /** The slot after `x` on a ring of `r` slots: the last slot is followed by slot 0. */
  function NextSlot(x: nat, r: nat): nat
  {
    if x + 1 < r then x + 1 else 0
  }

  /**
   * Slot `i` of the ring of `n`, bone number `boneIndex`: position and `u`
   * from `place`, the node's colour, `v` texture coordinate 1, and bound to
   * its own bone alone: skin index (boneIndex, 0, 0, 0), weights (1, 0, 0, 0).
   */
  function RingVertex(boneIndex: nat, n: Node, i: nat, config: Config, place: Placement): Vertex
  {
    var p := place(n, Radius(n, config), i, config.radialSegments);
    Vertex(p.position, RingColor(n, config), (p.u, 1.0), (boneIndex, 0, 0, 0), (1.0, 0.0, 0.0, 0.0))
  }

  /** The vertices the first `count` passes of the vertex loop for `n` push: slots 0 .. count-1 of its ring. */
  function Ring(boneIndex: nat, n: Node, count: nat, config: Config, place: Placement): seq<Vertex>
  {
    seq(count, i requires 0 <= i < count => RingVertex(boneIndex, n, i, config, place))
  }

  /** The first `count` passes of the vertex loop for `n`, bound to bone `boneIndex`. */
  function EmitRing(m: Mesh, boneIndex: nat, n: Node, count: nat, config: Config, place: Placement): Mesh
  {
    m.(vertices := m.vertices + Ring(boneIndex, n, count, config, place))
  }

  /**
   * The six indices one pass of the stitching loop pushes for slot `x`:
   * with a, d slots x and next of bone b's ring and b', c the same slots of
   * the ring of bone p, the triangles (a, d, b') and (d, c, b').
   */
  function Quad(b: nat, p: nat, x: nat, r: nat): seq<int>
  {
    var next := NextSlot(x, r);
    [Slot(b, x, r), Slot(b, next, r), Slot(p, x, r), Slot(b, next, r), Slot(p, next, r), Slot(p, x, r)]
  }

  /** The indices the first `count` passes of the stitching loop push. */
  function Quads(b: nat, p: nat, count: nat, r: nat): seq<int>
  {
    if count == 0 then [] else Quads(b, p, count - 1, r) + Quad(b, p, count - 1, r)
  }

  /** The first `count` passes of the stitching loop joining the ring of bone b to that of bone p. */
  function Stitch(m: Mesh, b: nat, p: nat, count: nat, r: nat): Mesh
  {
    m.(indices := m.indices + Quads(b, p, count, r))
  }

  /** The vertices after visiting `bones` in order: the ring of each bone, bone after bone. */
  function Vertices(bones: seq<Node>, config: Config, place: Placement): seq<Vertex>
  {
    if bones == [] then []
    else
      var b := |bones| - 1;
      Vertices(bones[..b], config, place) + Ring(b, bones[b], config.radialSegments, config, place)
  }

  /** The indices after visiting `bones` in order: every bone after the first stitched to the ring of its parent. */
  function Indices(bones: seq<Node>, r: nat): seq<int>
  {
    if |bones| <= 1 then []
    else
      var b := |bones| - 1;
      Indices(bones[..b], r) + Quads(b, ParentSlot(bones[..b], bones[b]), r, r)
  }

  /** The mesh after visiting `bones` in order. */
  function Build(bones: seq<Node>, config: Config, place: Placement): Mesh
  {
    Mesh(Vertices(bones, config, place), Indices(bones, config.radialSegments))
  }

  /** The number of triangles for n visited bones and r radial segments: none for the root, 2r for every other bone. */
  function TriangleCount(r: nat, n: nat): nat
  {
    if n == 0 then 0 else 2 * RingStart(n - 1, r)
  }

  // ---------------------------------------------------------------------
  // Predicates the lemmas are stated with.
  // ---------------------------------------------------------------------

  /** Entries 6q .. 6q+5 of `indices` are the quad joining slot `x` of bone b's ring to bone p's. */
  ghost predicate QuadIs(indices: seq<int>, q: nat, b: nat, p: nat, x: nat, r: nat)
  {
    6 * q + 6 <= |indices| && indices[6 * q..6 * q + 6] == Quad(b, p, x, r)
  }

  /** Every entry of `indices` names a vertex below `bound`. */
  ghost predicate IndicesBelow(indices: seq<int>, bound: nat)
  {
    forall t :: 0 <= t < |indices| ==> indices[t] < bound
  }

  // ---------------------------------------------------------------------
  // Lemmas about ring numbering.
  // ---------------------------------------------------------------------

  /** Ring b starts at vertex b·r. */
  lemma {:induction false} RingStartIsProduct(b: nat, r: nat)
    ensures RingStart(b, r) == b * r
  {
    if b > 0 {
      RingStartIsProduct(b - 1, r);
      assert (b - 1) * r + r == b * r;
    }
  }

  /** Under (x + 1) mod r, slot x < r is followed by NextSlot(x, r). */
  lemma NextSlotIsMod(x: nat, r: nat)
    requires x < r
    ensures NextSlot(x, r) == (x + 1) % r && NextSlot(x, r) < r
  {
  }

  /** Every slot of the ring of a bone before bone n lies below the first vertex of ring n. */
  lemma {:induction false} SlotBelow(b: nat, i: nat, r: nat, n: nat)
    requires b < n && i < r
    ensures Slot(b, i, r) < RingStart(n, r)
    decreases n
  {
    if b < n - 1 {
      SlotBelow(b, i, r, n - 1);
    }
  }

  // ---------------------------------------------------------------------
  // Lemmas about the passes of the two loops.
  // ---------------------------------------------------------------------

  /** One more pass of the vertex loop pushes one more slot. */
  lemma RingAppend(boneIndex: nat, n: Node, count: nat, config: Config, place: Placement)
    ensures Ring(boneIndex, n, count + 1, config, place)
              == Ring(boneIndex, n, count, config, place) + [RingVertex(boneIndex, n, count, config, place)]
  {
  }

  /** Six indices per pass. */
  lemma {:induction false} QuadsLength(b: nat, p: nat, count: nat, r: nat)
    ensures |Quads(b, p, count, r)| == 6 * count
  {
    if count > 0 {
      QuadsLength(b, p, count - 1, r);
    }
  }

  /** Pass `x` of the stitching loop pushes entries 6x .. 6x+5. */
  lemma {:induction false} QuadsAt(b: nat, p: nat, count: nat, x: nat, r: nat)
    requires x < count
    ensures 6 * x + 6 <= |Quads(b, p, count, r)| && Quads(b, p, count, r)[6 * x..6 * x + 6] == Quad(b, p, x, r)
  {
    var front := Quads(b, p, count - 1, r);
    QuadsLength(b, p, count - 1, r);
    if x < count - 1 {
      QuadsAt(b, p, count - 1, x, r);
      assert (front + Quad(b, p, count - 1, r))[6 * x..6 * x + 6] == front[6 * x..6 * x + 6];
    } else {
      assert (front + Quad(b, p, count - 1, r))[6 * x..6 * x + 6] == Quad(b, p, x, r);
    }
  }

  /** With the parent's bone before the child's, every index the stitching loop pushes names a vertex of bones 0..b. */
  lemma {:induction false} QuadsBelow(b: nat, p: nat, count: nat, r: nat)
    requires p < b && count <= r
    ensures IndicesBelow(Quads(b, p, count, r), RingStart(b + 1, r))
  {
    if count > 0 {
      QuadsBelow(b, p, count - 1, r);
      QuadBelow(b, p, count - 1, r);
      AppendBelow(Quads(b, p, count - 1, r), Quad(b, p, count - 1, r), RingStart(b + 1, r));
    }
  }

  /** The six indices of a quad between bone b and an earlier bone p name vertices of bones 0..b. */
  lemma QuadBelow(b: nat, p: nat, x: nat, r: nat)
    requires p < b && x < r
    ensures IndicesBelow(Quad(b, p, x, r), RingStart(b + 1, r))
  {
    var next := NextSlot(x, r);
    SlotBelow(b, x, r, b + 1);
    SlotBelow(b, next, r, b + 1);
    SlotBelow(p, x, r, b + 1);
    SlotBelow(p, next, r, b + 1);
  }

  lemma AppendBelow(front: seq<int>, more: seq<int>, bound: nat)
    requires IndicesBelow(front, bound) && IndicesBelow(more, bound)
    ensures IndicesBelow(front + more, bound)
  {
  }

  lemma BelowWiden(indices: seq<int>, bound: nat, bound': nat)
    requires IndicesBelow(indices, bound) && bound <= bound'
    ensures IndicesBelow(indices, bound')
  {
  }

  // ---------------------------------------------------------------------
  // Lemmas about the whole build.
  // ---------------------------------------------------------------------

  /** Build over one more bone, in the form the builder loop takes it. */
  lemma BuildAppend(bones: seq<Node>, n: Node, config: Config, place: Placement)
    ensures var r := config.radialSegments;
            var m := EmitRing(Build(bones, config, place), |bones|, n, r, config, place);
            Build(bones + [n], config, place) == if bones == [] then m else Stitch(m, |bones|, ParentSlot(bones, n), r, r)
  {
    assert (bones + [n])[..|bones|] == bones;
  }

  /** The vertices after the first k visits begin the final ones. */
  lemma {:induction false} VerticesGrow(bones: seq<Node>, k: nat, config: Config, place: Placement)
    requires k <= |bones|
    ensures Vertices(bones[..k], config, place) <= Vertices(bones, config, place)
    decreases |bones|
  {
    if k == |bones| {
      assert bones[..k] == bones;
    } else {
      var b := |bones| - 1;
      VerticesGrow(bones[..b], k, config, place);
      assert bones[..b][..k] == bones[..k];
    }
  }

  /** The indices after the first k visits begin the final ones. */
  lemma {:induction false} IndicesGrow(bones: seq<Node>, k: nat, r: nat)
    requires k <= |bones|
    ensures Indices(bones[..k], r) <= Indices(bones, r)
    decreases |bones|
  {
    if k == |bones| {
      assert bones[..k] == bones;
    } else {
      var b := |bones| - 1;
      IndicesGrow(bones[..b], k, r);
      assert bones[..b][..k] == bones[..k];
    }
  }

  /** r vertices per visited bone. */
  lemma {:induction false} VerticesSized(bones: seq<Node>, config: Config, place: Placement)
    ensures |Vertices(bones, config, place)| == RingStart(|bones|, config.radialSegments)
  {
    if bones != [] {
      VerticesSized(bones[..|bones| - 1], config, place);
    }
  }

  /** 6r indices per visited bone after the first. */
  lemma {:induction false} IndicesSized(bones: seq<Node>, r: nat)
    ensures |Indices(bones, r)| == 3 * TriangleCount(r, |bones|)
  {
    if |bones| > 1 {
      var b := |bones| - 1;
      IndicesSized(bones[..b], r);
      QuadsLength(b, ParentSlot(bones[..b], bones[b]), r, r);
    }
  }

  /**
   * Output lengths: with r radial segments and n visited bones there are
   * RingStart(n, r) = r·n vertices (RingStartIsProduct), so 3rn numbers in
   * `vertices` and `colors`, 2rn in `uvs` and 4rn in `skinIndices` and
   * `skinWeights`; and 2r(n-1) triangles, 6r(n-1) numbers in `indices`.
   */
  lemma BuildSized(bones: seq<Node>, config: Config, place: Placement)
    ensures |Build(bones, config, place).vertices| == RingStart(|bones|, config.radialSegments)
    ensures |Build(bones, config, place).indices| == 3 * TriangleCount(config.radialSegments, |bones|)
  {
    VerticesSized(bones, config, place);
    IndicesSized(bones, config.radialSegments);
  }

  /** The sizes of BuildSized as products: n·r vertices and, for n ≥ 1 bones, 6·(n−1)·r indices. */
  lemma BuildSizedAsProducts(bones: seq<Node>, config: Config, place: Placement)
    ensures |Build(bones, config, place).vertices| == |bones| * config.radialSegments
    ensures |bones| >= 1 ==> |Build(bones, config, place).indices| == 6 * ((|bones| - 1) * config.radialSegments)
  {
    BuildSized(bones, config, place);
    RingStartIsProduct(|bones|, config.radialSegments);
    if |bones| >= 1 {
      var before := RingStart(|bones| - 1, config.radialSegments);
      RingStartIsProduct(|bones| - 1, config.radialSegments);
      assert TriangleCount(config.radialSegments, |bones|) == 2 * before;
    }
  }

  /**
   * Every vertex: slot i of the ring of bone b is vertex b·r + i (by
   * RingStartIsProduct) and is RingVertex(b, bones[b], i): position and `u`
   * from the ring placement of that bone's node, the node's own colour or
   * the configured one, `v` = 1, skin index (b, 0, 0, 0) and weights
   * (1, 0, 0, 0), which sum to 1.
   */
  lemma BuildVertexAt(bones: seq<Node>, config: Config, place: Placement, b: nat, i: nat)
    requires b < |bones| && i < config.radialSegments
    ensures var m := Build(bones, config, place);
            var v := Slot(b, i, config.radialSegments);
            && v < |m.vertices|
            && m.vertices[v] == RingVertex(b, bones[b], i, config, place)
            && var w := m.vertices[v].skinWeight; w.0 + w.1 + w.2 + w.3 == 1.0
  {
    VerticesGrow(bones, b + 1, config, place);
    VerticesSized(bones[..b], config, place);
    assert bones[..b + 1][..b] == bones[..b];
  }

  /**
   * Each quad in place: for every bone b after the first and every slot x,
   * with next = (x + 1) mod r (NextSlotIsMod), a = b·r + x, d = b·r + next,
   * and b', c the same slots of the parent's ring, quad number (b-1)·r + x
   * of `indices` is the triangle (a, d, b') followed by (d, c, b').
   */
  lemma BuildQuadAt(bones: seq<Node>, config: Config, place: Placement, b: nat, x: nat)
    requires 1 <= b < |bones| && x < config.radialSegments
    ensures QuadIs(Build(bones, config, place).indices, Slot(b - 1, x, config.radialSegments), b,
                   ParentSlot(bones[..b], bones[b]), x, config.radialSegments)
  {
    var r := config.radialSegments;
    var p := ParentSlot(bones[..b], bones[b]);
    IndicesGrow(bones, b + 1, r);
    IndicesSized(bones[..b], r);
    assert bones[..b + 1][..b] == bones[..b];
    QuadsAt(b, p, r, x, r);
    SliceInPrefix(Indices(bones[..b], r), Quads(b, p, r, r), Indices(bones, r), RingStart(b - 1, r), x, Quad(b, p, x, r));
  }

  lemma SliceInPrefix(front: seq<int>, qs: seq<int>, whole: seq<int>, firstQuad: nat, x: nat, quad: seq<int>)
    requires front + qs <= whole && |front| == 6 * firstQuad
    requires 6 * x + 6 <= |qs| && qs[6 * x..6 * x + 6] == quad
    ensures 6 * (firstQuad + x) + 6 <= |whole| && whole[6 * (firstQuad + x)..6 * (firstQuad + x) + 6] == quad
  {
    assert whole[6 * (firstQuad + x)..6 * (firstQuad + x) + 6] == (front + qs)[6 * (firstQuad + x)..6 * (firstQuad + x) + 6];
  }

  lemma ParentsFirstPrefix(bones: seq<Node>, k: nat)
    requires ParentsFirst(bones) && k <= |bones|
    ensures ParentsFirst(bones[..k])
  {
    forall j | 0 < j < k ensures ParentSlot(bones[..k][..j], bones[..k][j]) < j {
      assert bones[..k][..j] == bones[..j];
    }
  }

  /**
   * No triangle names a missing vertex: when every bone's parent was visited
   * before it, every entry of `indices` is below RingStart(n, r) = r·n, the
   * vertex count. Applied to each prefix of the visit order, this says every
   * index is below the vertex count at the moment it is pushed.
   */
  lemma {:induction false} BuildIndicesInRange(bones: seq<Node>, config: Config, place: Placement)
    requires ParentsFirst(bones)
    ensures IndicesBelow(Build(bones, config, place).indices, RingStart(|bones|, config.radialSegments))
  {
    IndicesInRange(bones, config.radialSegments);
  }

  lemma {:induction false} IndicesInRange(bones: seq<Node>, r: nat)
    requires ParentsFirst(bones)
    ensures IndicesBelow(Indices(bones, r), RingStart(|bones|, r))
  {
    if |bones| > 1 {
      var b := |bones| - 1;
      var p := ParentSlot(bones[..b], bones[b]);
      ParentsFirstPrefix(bones, b);
      IndicesInRange(bones[..b], r);
      BelowWiden(Indices(bones[..b], r), RingStart(b, r), RingStart(b + 1, r));
      QuadsBelow(b, p, r, r);
      AppendBelow(Indices(bones[..b], r), Quads(b, p, r, r), RingStart(b + 1, r));
    }
  }
}
