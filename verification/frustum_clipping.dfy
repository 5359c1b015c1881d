/**
 * Frustum clipping (src/FrustumClipping.js): the clip-space cube's eight
 * corners, the four corners of each of its six faces, the selector that picks
 * a face's corners out of the unprojected points, and the `update` step that
 * turns every face into a clipping plane of the renderer.
 *
 * The float maths is not modelled: unprojecting a clip-space corner through
 * the camera and building a plane from a face's corners are parameters of
 * `Update`, so the model says which values they are applied to and where
 * the results go, not what they compute.
 */
module FrustumClipping {

  // Plane enum (src/FrustumClipping.js:10-15).
  const NEAR: nat := 0
  const FAR: nat := 1
  const LEFT: nat := 2
  const RIGHT: nat := 3
  const TOP: nat := 4
  const BOTTOM: nat := 5
  const PLANE_COUNT: nat := 6

  // Corner enum (src/FrustumClipping.js:18-25).
  const TOP_LEFT_FRONT: nat := 0
  const TOP_RIGHT_FRONT: nat := 1
  const BOTTOM_LEFT_FRONT: nat := 2
  const BOTTOM_RIGHT_FRONT: nat := 3
  const TOP_LEFT_BACK: nat := 4
  const TOP_RIGHT_BACK: nat := 5
  const BOTTOM_LEFT_BACK: nat := 6
  const BOTTOM_RIGHT_BACK: nat := 7
  const CORNER_COUNT: nat := 8

  // What the words of a corner's name mean in clip space: TOP/BOTTOM fix y,
  // LEFT/RIGHT fix x, FRONT/BACK fix z (the near face is z = -1).
  const TOP_Y := 1
  const BOTTOM_Y := -1
  const LEFT_X := -1
  const RIGHT_X := 1
  const FRONT_Z := -1
  const BACK_Z := 1

  /** A point with integer clip-space coordinates. */
  datatype Point = Point(x: int, y: int, z: int)

  /** POINT_COORDS: the clip-space position of every corner, by corner enum value. */
  const POINT_COORDS: seq<Point> := [
    Point(-1, 1, -1),
    Point(1, 1, -1),
    Point(-1, -1, -1),
    Point(1, -1, -1),
    Point(-1, 1, 1),
    Point(1, 1, 1),
    Point(-1, -1, 1),
    Point(1, -1, 1)
  ]

  /** PLANE_POINTS: for every plane, the four corners of its face, in "backwards Z" order. */
  const PLANE_POINTS: seq<seq<nat>> := [
    [BOTTOM_RIGHT_FRONT, BOTTOM_LEFT_FRONT, TOP_RIGHT_FRONT, TOP_LEFT_FRONT],
    [BOTTOM_LEFT_BACK, BOTTOM_RIGHT_BACK, TOP_LEFT_BACK, TOP_RIGHT_BACK],
    [BOTTOM_LEFT_FRONT, BOTTOM_LEFT_BACK, TOP_LEFT_FRONT, TOP_LEFT_BACK],
    [BOTTOM_RIGHT_BACK, BOTTOM_RIGHT_FRONT, TOP_RIGHT_BACK, TOP_RIGHT_FRONT],
    [TOP_RIGHT_BACK, TOP_RIGHT_FRONT, TOP_LEFT_BACK, TOP_LEFT_FRONT],
    [BOTTOM_RIGHT_FRONT, BOTTOM_RIGHT_BACK, BOTTOM_LEFT_FRONT, BOTTOM_LEFT_BACK]
  ]

  /** The order in which `update` visits the planes. */
  const PLANE_ORDER: seq<nat> := [NEAR, FAR, LEFT, RIGHT, TOP, BOTTOM]

  // ---------------------------------------------------------------------
  // Reference geometry of the cube, independent of the two tables

  predicate IsSign(v: int) { v == -1 || v == 1 }

  /** A corner of the cube [-1, 1]^3. */
  predicate IsCubeCorner(p: Point) { IsSign(p.x) && IsSign(p.y) && IsSign(p.z) }

  /** The outward unit normal of a plane's face, read off the plane's name: the face is where that coordinate takes that value. */
  function Outward(plane: nat): Point
    requires plane < PLANE_COUNT
  {
    if plane == NEAR then Point(0, 0, FRONT_Z)
    else if plane == FAR then Point(0, 0, BACK_Z)
    else if plane == LEFT then Point(LEFT_X, 0, 0)
    else if plane == RIGHT then Point(RIGHT_X, 0, 0)
    else if plane == TOP then Point(0, TOP_Y, 0)
    else Point(0, BOTTOM_Y, 0)
  }

  /** A point lies on a face when it has the coordinate that the face's outward normal fixes. */
  predicate OnFace(p: Point, plane: nat)
    requires plane < PLANE_COUNT
  {
    var n := Outward(plane);
    if n.x != 0 then p.x == n.x else if n.y != 0 then p.y == n.y else p.z == n.z
  }

  /** The number of coordinates in which two points differ. */
  function Differences(a: Point, b: Point): (d: nat)
    ensures d <= 3
    ensures d == 0 <==> a == b
  {
    (if a.x != b.x then 1 else 0) + (if a.y != b.y then 1 else 0) + (if a.z != b.z then 1 else 0)
  }

  /** The clip-space position of corner `c`. */
  function Corner(c: nat): Point
    requires c < CORNER_COUNT
  {
    POINT_COORDS[c]
  }

  /** The clip-space position of the `k`-th corner of a plane's face. */
  function FaceCorner(plane: nat, k: nat): Point
    requires plane < PLANE_COUNT && k < 4
  {
    POINT_COORDS[PLANE_POINTS[plane][k]]
  }

  // ---------------------------------------------------------------------
  // The tables

  /** Every corner's coordinates are the ones its enum name spells out. */
  lemma CornerNamesMatchCoordinates()
    ensures |POINT_COORDS| == CORNER_COUNT
    ensures Corner(TOP_LEFT_FRONT) == Point(LEFT_X, TOP_Y, FRONT_Z)
    ensures Corner(TOP_RIGHT_FRONT) == Point(RIGHT_X, TOP_Y, FRONT_Z)
    ensures Corner(BOTTOM_LEFT_FRONT) == Point(LEFT_X, BOTTOM_Y, FRONT_Z)
    ensures Corner(BOTTOM_RIGHT_FRONT) == Point(RIGHT_X, BOTTOM_Y, FRONT_Z)
    ensures Corner(TOP_LEFT_BACK) == Point(LEFT_X, TOP_Y, BACK_Z)
    ensures Corner(TOP_RIGHT_BACK) == Point(RIGHT_X, TOP_Y, BACK_Z)
    ensures Corner(BOTTOM_LEFT_BACK) == Point(LEFT_X, BOTTOM_Y, BACK_Z)
    ensures Corner(BOTTOM_RIGHT_BACK) == Point(RIGHT_X, BOTTOM_Y, BACK_Z)
  {
  }

  /** POINT_COORDS lists the eight corners of the cube, each exactly once. */
  lemma PointCoordsAreTheCube()
    ensures |POINT_COORDS| == CORNER_COUNT
    ensures forall i, j :: 0 <= i < j < CORNER_COUNT ==> Corner(i) != Corner(j)
    ensures forall p :: p in POINT_COORDS <==> IsCubeCorner(p)
  {
    forall p | IsCubeCorner(p) ensures p in POINT_COORDS {
      var i := (if p.x == 1 then 1 else 0) + (if p.y == -1 then 2 else 0) + (if p.z == 1 then 4 else 0);
      assert POINT_COORDS[i] == p;
    }
  }

  /** Every row of PLANE_POINTS names four distinct corners. */
  lemma PlaneRowsAreFourDistinctCorners(plane: nat)
    requires plane < PLANE_COUNT
    ensures |PLANE_POINTS| == PLANE_COUNT && |PLANE_POINTS[plane]| == 4
    ensures forall k :: 0 <= k < 4 ==> PLANE_POINTS[plane][k] < CORNER_COUNT
    ensures forall k, l :: 0 <= k < l < 4 ==> PLANE_POINTS[plane][k] != PLANE_POINTS[plane][l]
  {
  }

  /** A plane's row holds exactly the corners that lie on its face. */
  lemma PlaneRowIsItsFace(plane: nat)
    requires plane < PLANE_COUNT
    ensures forall c :: 0 <= c < CORNER_COUNT ==> (OnFace(Corner(c), plane) <==> c in PLANE_POINTS[plane])
  {
    forall c | 0 <= c < CORNER_COUNT
      ensures OnFace(Corner(c), plane) <==> c in PLANE_POINTS[plane]
    {
      var row := PLANE_POINTS[plane];
      assert c in row <==> c == row[0] || c == row[1] || c == row[2] || c == row[3];
    }
  }

  /**
   * The "backwards Z" layout of a row: entries 0 and 3, and entries 1 and 2,
   * are opposite corners of the face (they differ in both coordinates the
   * face leaves free), while every other pair shares one side.
   */
  lemma PlaneRowsAreBackwardsZ(plane: nat)
    requires plane < PLANE_COUNT
    ensures Differences(FaceCorner(plane, 0), FaceCorner(plane, 3)) == 2
    ensures Differences(FaceCorner(plane, 1), FaceCorner(plane, 2)) == 2
    ensures Differences(FaceCorner(plane, 0), FaceCorner(plane, 1)) == 1
    ensures Differences(FaceCorner(plane, 0), FaceCorner(plane, 2)) == 1
    ensures Differences(FaceCorner(plane, 1), FaceCorner(plane, 3)) == 1
    ensures Differences(FaceCorner(plane, 2), FaceCorner(plane, 3)) == 1
  {
  }

  /** `update` visits every plane exactly once. */
  lemma PlaneOrderVisitsEachPlaneOnce()
    ensures |PLANE_ORDER| == PLANE_COUNT
    ensures forall p :: 0 <= p < PLANE_COUNT <==> multiset(PLANE_ORDER)[p] == 1
  {
    assert multiset(PLANE_ORDER) == multiset{0, 1, 2, 3, 4, 5};
  }

  // ---------------------------------------------------------------------
  // The selector

  /** getPointsForPlane (src/FrustumClipping.js:51-52): the points at a plane's four corners. */
  function GetPointsForPlane<V>(points: seq<V>, plane: nat): (r: seq<V>)
    requires |points| == CORNER_COUNT && plane < PLANE_COUNT
    ensures |r| == 4
    ensures forall k :: 0 <= k < 4 ==> r[k] in points
    ensures (forall i, j :: 0 <= i < j < CORNER_COUNT ==> points[i] != points[j]) ==>
              forall k, l :: 0 <= k < l < 4 ==> r[k] != r[l]
  {
    PlaneRowsAreFourDistinctCorners(plane);
    seq(4, k requires 0 <= k < 4 => points[PLANE_POINTS[plane][k]])
  }

  /**
   * Picking from the clip-space corners themselves gives four distinct
   * corners of the plane's face, each of which lies on the face.
   */
  lemma PointsForPlaneLieOnFace(plane: nat)
    requires plane < PLANE_COUNT
    ensures var r := GetPointsForPlane(POINT_COORDS, plane);
            (forall k :: 0 <= k < 4 ==> IsCubeCorner(r[k]) && OnFace(r[k], plane))
            && (forall k, l :: 0 <= k < l < 4 ==> r[k] != r[l])
  {
    var r := GetPointsForPlane(POINT_COORDS, plane);
    PointCoordsAreTheCube();
    PlaneRowsAreFourDistinctCorners(plane);
    forall k | 0 <= k < 4 ensures IsCubeCorner(r[k]) && OnFace(r[k], plane) {
      assert r[k] == Corner(PLANE_POINTS[plane][k]);
      assert r[k] in POINT_COORDS;
      PlaneRowIsItsFace(plane);
    }
  }

  /**
   * Selection commutes with any per-corner transformation: the points picked
   * from the transformed corners are the transforms of the clip-space
   * corners of the face.
   */
  lemma PointsForPlaneOfMapped<V>(f: Point -> V, plane: nat)
    requires plane < PLANE_COUNT
    ensures var mapped := seq(CORNER_COUNT, i requires 0 <= i < CORNER_COUNT => f(POINT_COORDS[i]));
            forall k :: 0 <= k < 4 ==> GetPointsForPlane(mapped, plane)[k] == f(FaceCorner(plane, k))
  {
  }

  // ---------------------------------------------------------------------
  // The clipping state

  /** The part of the renderer that `update` writes. */
  class Renderer<P> {
    var clippingPlanes: seq<P>

    constructor (clippingPlanes: seq<P>)
      ensures this.clippingPlanes == clippingPlanes
    {
      this.clippingPlanes := clippingPlanes;
    }
  }

  /** The unprojected corners for a camera: what the first loop of `update` leaves in `_points`. */
  function Corners<C, V>(camera: C, unproject: (Point, C) -> V): (r: seq<V>)
    ensures |r| == CORNER_COUNT
  {
    seq(CORNER_COUNT, i requires 0 <= i < CORNER_COUNT => unproject(POINT_COORDS[i], camera))
  }

  /** The planes built from a set of corners: what the second loop of `update` leaves in `planes`. */
  function FacePlanes<V, P>(points: seq<V>, planeFrom: seq<V> -> P): (r: seq<P>)
    requires |points| == CORNER_COUNT
    ensures |r| == PLANE_COUNT
  {
    seq(PLANE_COUNT, p requires 0 <= p < PLANE_COUNT => planeFrom(GetPointsForPlane(points, p)))
  }

  /**
   * The plane `update` derives for each face is built from the camera's
   * images of that face's four corners, in table order; those corners are
   * four distinct cube corners lying on the face.
   */
  lemma FacePlaneFromOwnCorners<C, V, P>(camera: C, unproject: (Point, C) -> V, planeFrom: seq<V> -> P, plane: nat)
    requires plane < PLANE_COUNT
    ensures forall k :: 0 <= k < 4 ==> IsCubeCorner(FaceCorner(plane, k)) && OnFace(FaceCorner(plane, k), plane)
    ensures forall k, l :: 0 <= k < l < 4 ==> FaceCorner(plane, k) != FaceCorner(plane, l)
    ensures FacePlanes(Corners(camera, unproject), planeFrom)[plane]
              == planeFrom(seq(4, k requires 0 <= k < 4 => unproject(FaceCorner(plane, k), camera)))
  {
    var corners := GetPointsForPlane(POINT_COORDS, plane);
    PointsForPlaneLieOnFace(plane);
    PointsForPlaneOfMapped(pt => unproject(pt, camera), plane);
    assert forall k :: 0 <= k < 4 ==> corners[k] == FaceCorner(plane, k);
    var picked := GetPointsForPlane(Corners(camera, unproject), plane);
    assert picked == seq(4, k requires 0 <= k < 4 => unproject(FaceCorner(plane, k), camera));
  }

  /** FrustumClipping (src/FrustumClipping.js:58-93). */
  class FrustumClipping<C, V, P> {
    const renderer: Renderer<P>
    var camera: C
    var planes: seq<P>
    var enabled: bool
    var points: seq<V>

    predicate Valid()
      reads this
    {
      |points| == CORNER_COUNT && |planes| == PLANE_COUNT
    }

    /**
     * Six fresh planes and eight fresh points, then one `update`: the
     * renderer ends up clipping to the camera's frustum. `blankPlane` and
     * `blankPoint` stand for `new Plane()` and `new Vector3(...)`, whose
     * values `update` overwrites.
     */
    constructor (renderer: Renderer<P>, camera: C, blankPlane: P, blankPoint: V,
                 unproject: (Point, C) -> V, planeFrom: seq<V> -> P)
      modifies renderer
      ensures Valid()
      ensures this.renderer == renderer && this.camera == camera && enabled
      ensures points == Corners(camera, unproject)
      ensures planes == FacePlanes(Corners(camera, unproject), planeFrom)
      ensures renderer.clippingPlanes == planes
    {
      this.renderer := renderer;
      this.camera := camera;
      planes := seq(PLANE_COUNT, _ => blankPlane);
      enabled := true;
      points := seq(CORNER_COUNT, _ => blankPoint);
      new;
      Update(unproject, planeFrom);
    }

    /**
     * update (src/FrustumClipping.js:78-92): every point is reset to its
     * clip-space corner and unprojected, every plane is rebuilt from its
     * face's points, and the renderer gets a copy of the plane list. The new
     * state depends on the camera only, not on what the points and planes
     * held before.
     */
    method Update(unproject: (Point, C) -> V, planeFrom: seq<V> -> P)
      requires Valid()
      modifies this, renderer
      ensures Valid()
      ensures camera == old(camera) && enabled == old(enabled)
      ensures points == Corners(camera, unproject)
      ensures planes == FacePlanes(Corners(camera, unproject), planeFrom)
      ensures renderer.clippingPlanes == planes
    {
      for i := 0 to CORNER_COUNT
        invariant |points| == CORNER_COUNT && |planes| == PLANE_COUNT
        invariant camera == old(camera) && enabled == old(enabled)
        invariant forall j :: 0 <= j < i ==> points[j] == unproject(POINT_COORDS[j], camera)
      {
        points := points[i := unproject(POINT_COORDS[i], camera)];
      }
      assert points == Corners(camera, unproject);

      PlaneOrderVisitsEachPlaneOnce();
      for j := 0 to |PLANE_ORDER|
        invariant |points| == CORNER_COUNT && |planes| == PLANE_COUNT
        invariant camera == old(camera) && enabled == old(enabled)
        invariant points == Corners(camera, unproject)
        invariant forall q :: 0 <= q < j ==> planes[PLANE_ORDER[q]] == planeFrom(GetPointsForPlane(points, PLANE_ORDER[q]))
      {
        var plane := PLANE_ORDER[j];
        planes := planes[plane := planeFrom(GetPointsForPlane(points, plane))];
      }
      assert planes == FacePlanes(points, planeFrom) by {
        forall p | 0 <= p < PLANE_COUNT
          ensures planes[p] == FacePlanes(points, planeFrom)[p]
        {
          assert PLANE_ORDER[p] == p;
        }
      }

      renderer.clippingPlanes := planes;
    }
  }
}
