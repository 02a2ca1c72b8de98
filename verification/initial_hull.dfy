/**
 * `BuildInitialHull`: the bounding-box scan that fixes the tolerance, the choice of four
 * extreme points with its three degeneracy checks, the seed tetrahedron, and the filing of every
 * other input point under the face it is farthest above.
 */
module InitialHull {
  import opened Options
  import opened Geometry
  import opened Sequences
  import opened Scan
  import opened Mesh
  import opened MeshEdit
  import opened Conflicts

  /** Why the seed simplex cannot be built. */
  datatype Failure = InsufficientPoints | Coincident | Collinear | Coplanar

  // ---------------------------------------------------------------------------------------------
  // The bounding-box scan.

  /** Coordinate `axis` of every input point. */
  function Axis(ps: seq<Vec3>, axis: nat): (xs: seq<real>)
    requires axis < 3
    ensures |xs| == |ps| && forall i | 0 <= i < |ps| :: xs[i] == Coord(ps[i], axis)
  {
    seq(|ps|, i requires 0 <= i < |ps| => Coord(ps[i], axis))
  }

  /** Negated coordinate `axis` of every input point: its first maximum is the first minimum. */
  function NegAxis(ps: seq<Vec3>, axis: nat): (xs: seq<real>)
    requires axis < 3
    ensures |xs| == |ps| && forall i | 0 <= i < |ps| :: xs[i] == -Coord(ps[i], axis)
  {
    seq(|ps|, i requires 0 <= i < |ps| => -Coord(ps[i], axis))
  }

  /** The largest coordinate along `axis`, or `-maxFloat` when no coordinate exceeds it. */
  function MaxCoord(k: Kernel, ps: seq<Vec3>, axis: nat): real
    requires axis < 3
  {
    match ArgMaxAbove(Axis(ps, axis), {}, -k.maxFloat)
    case None => -k.maxFloat
    case Some(i) => Coord(ps[i], axis)
  }

  /** The maximum corner of the bounding box, as the scan leaves it. */
  function MaxCorner(k: Kernel, ps: seq<Vec3>): Vec3 {
    Vec3(MaxCoord(k, ps, 0), MaxCoord(k, ps, 1), MaxCoord(k, ps, 2))
  }

  /** Three epsilons per unit of `corner`'s 1-norm. */
  function ToleranceAt(eps: real, corner: Vec3): real {
    3.0 * (Abs(corner.x) + Abs(corner.y) + Abs(corner.z)) * eps
  }

  /** The coplanarity tolerance: three epsilons per unit of the box's maximum corner, in the 1-norm. */
  function Tolerance(k: Kernel, ps: seq<Vec3>): real {
    ToleranceAt(k.epsilon, MaxCorner(k, ps))
  }

  /** What `qhFindAABB` reports: per axis the index of the first minimum and first maximum, and the tolerance. */
  datatype Extremes = Extremes(iMin: seq<nat>, iMax: seq<nat>, tolerance: real)

  /** The index of the first smallest coordinate along `axis` below `maxFloat`, or 0 when there is none. */
  function FirstMin(k: Kernel, ps: seq<Vec3>, axis: nat): nat
    requires axis < 3
  {
    ArgMaxAbove(NegAxis(ps, axis), {}, -k.maxFloat).GetOr(0)
  }

  /** The index of the first largest coordinate along `axis` above `-maxFloat`, or 0 when there is none. */
  function FirstMax(k: Kernel, ps: seq<Vec3>, axis: nat): nat
    requires axis < 3
  {
    ArgMaxAbove(Axis(ps, axis), {}, -k.maxFloat).GetOr(0)
  }

  /** The scan's result stated through the selection rule: running bounds start at -+`maxFloat`, updates are strict, indices default to 0. */
  function ExtremesOf(k: Kernel, ps: seq<Vec3>): Extremes {
    Extremes([FirstMin(k, ps, 0), FirstMin(k, ps, 1), FirstMin(k, ps, 2)],
             [FirstMax(k, ps, 0), FirstMax(k, ps, 1), FirstMax(k, ps, 2)],
             Tolerance(k, ps))
  }

  /**
   * Along each axis the reported minimum (maximum) has a coordinate no larger (no smaller) than
   * that of every point inside the float range.
   */
  lemma ExtremesBounds(k: Kernel, ps: seq<Vec3>, a: nat)
    requires a < 3
    ensures forall j | 0 <= j < |ps| && Coord(ps[j], a) > -k.maxFloat ::
      FirstMax(k, ps, a) < |ps| && Coord(ps[j], a) <= Coord(ps[FirstMax(k, ps, a)], a)
    ensures forall j | 0 <= j < |ps| && Coord(ps[j], a) < k.maxFloat ::
      FirstMin(k, ps, a) < |ps| && Coord(ps[FirstMin(k, ps, a)], a) <= Coord(ps[j], a)
  {
    var up, down := Axis(ps, a), NegAxis(ps, a);
    forall j | 0 <= j < |ps| && Coord(ps[j], a) > -k.maxFloat
      ensures FirstMax(k, ps, a) < |ps| && Coord(ps[j], a) <= Coord(ps[FirstMax(k, ps, a)], a)
    {
      assert up[j] > -k.maxFloat;
    }
    forall j | 0 <= j < |ps| && Coord(ps[j], a) < k.maxFloat
      ensures FirstMin(k, ps, a) < |ps| && Coord(ps[FirstMin(k, ps, a)], a) <= Coord(ps[j], a)
    {
      assert down[j] > -k.maxFloat;
    }
  }

  /** The reported indices are input positions whenever there is an input point. */
  lemma ExtremesInRange(k: Kernel, ps: seq<Vec3>, a: nat)
    requires a < 3 && |ps| > 0
    ensures FirstMin(k, ps, a) < |ps| && FirstMax(k, ps, a) < |ps|
  {
  }

  /**
   * On a non-empty input the reported indices are input positions, and with a non-negative
   * epsilon the tolerance is not negative: what the simplex selection relies on.
   */
  lemma ExtremesUsable(k: Kernel, ps: seq<Vec3>)
    requires |ps| > 0 && k.epsilon >= 0.0
    ensures |ExtremesOf(k, ps).iMin| == 3 && |ExtremesOf(k, ps).iMax| == 3
    ensures forall a | 0 <= a < 3 :: ExtremesOf(k, ps).iMin[a] < |ps| && ExtremesOf(k, ps).iMax[a] < |ps|
    ensures ExtremesOf(k, ps).tolerance >= 0.0
  {
    ExtremesInRange(k, ps, 0);
    ExtremesInRange(k, ps, 1);
    ExtremesInRange(k, ps, 2);
    ToleranceNonNegative(k.epsilon, MaxCorner(k, ps));
    assert ExtremesOf(k, ps).tolerance == ToleranceAt(k.epsilon, MaxCorner(k, ps));
  }

  lemma ToleranceNonNegative(eps: real, corner: Vec3)
    requires eps >= 0.0
    ensures ToleranceAt(eps, corner) >= 0.0
  {
    var s := Abs(corner.x) + Abs(corner.y) + Abs(corner.z);
    assert 3.0 * s >= 0.0;
  }

  /** A running bound of the scan and the index that set it (None while it is the initial bound). */
  datatype Running = Running(best: real, arg: Option<nat>)

  /** One strict comparison of the scan: `xs[i]` replaces the bound only when it is greater. */
  function Visit(xs: seq<real>, i: nat, r: Running): Running
    requires i < |xs|
  {
    if xs[i] > r.best then Running(xs[i], Some(i)) else r
  }

  /** Visiting position `i` leaves what is still to come of the scan unchanged. */
  lemma VisitStep(xs: seq<real>, i: nat, r: Running)
    requires i < |xs|
    ensures ScanFrom(xs, {}, i, r.best, r.arg) == ScanFrom(xs, {}, i + 1, Visit(xs, i, r).best, Visit(xs, i, r).arg)
  {
  }

  /** What the running bound of one axis knows after the first `i` points. */
  ghost predicate Scanned(xs: seq<real>, t: real, i: nat, r: Running)
    requires i <= |xs|
  {
    && ScanFrom(xs, {}, i, r.best, r.arg) == ArgMaxAbove(xs, {}, t)
    && match r.arg
       case None => r.best == t
       case Some(m) => m < i && r.best == xs[m]
  }

  lemma VisitScanned(xs: seq<real>, t: real, i: nat, r: Running)
    requires i < |xs| && Scanned(xs, t, i, r)
    ensures Scanned(xs, t, i + 1, Visit(xs, i, r))
  {
    VisitStep(xs, i, r);
  }

  /** Both running bounds of axis `a` after the first `n` points. */
  ghost predicate AxisScanned(k: Kernel, ps: seq<Vec3>, n: nat, a: nat, lo: Running, hi: Running)
    requires n <= |ps| && a < 3
  {
    Scanned(NegAxis(ps, a), -k.maxFloat, n, lo) && Scanned(Axis(ps, a), -k.maxFloat, n, hi)
  }

  lemma AxisVisited(k: Kernel, ps: seq<Vec3>, i: nat, a: nat, lo: Running, hi: Running)
    requires i < |ps| && a < 3 && AxisScanned(k, ps, i, a, lo, hi)
    ensures AxisScanned(k, ps, i + 1, a, Visit(NegAxis(ps, a), i, lo), Visit(Axis(ps, a), i, hi))
  {
    VisitScanned(NegAxis(ps, a), -k.maxFloat, i, lo);
    VisitScanned(Axis(ps, a), -k.maxFloat, i, hi);
  }

  /** Once every point is scanned, the running bounds of an axis hold what `ExtremesOf` states for it. */
  lemma ScannedAxis(k: Kernel, ps: seq<Vec3>, a: nat, lo: Running, hi: Running)
    requires a < 3 && AxisScanned(k, ps, |ps|, a, lo, hi)
    ensures lo.arg.GetOr(0) == FirstMin(k, ps, a)
    ensures hi.arg.GetOr(0) == FirstMax(k, ps, a)
    ensures hi.best == MaxCoord(k, ps, a)
  {
  }

  /** The three scanned axes, assembled, are the extremes of the selection rule. */
  lemma ScannedExtremes(k: Kernel, ps: seq<Vec3>, lo: seq<Running>, hi: seq<Running>)
    requires |lo| == 3 && |hi| == 3
    requires lo[0].arg.GetOr(0) == FirstMin(k, ps, 0) && hi[0].arg.GetOr(0) == FirstMax(k, ps, 0) && hi[0].best == MaxCoord(k, ps, 0)
    requires lo[1].arg.GetOr(0) == FirstMin(k, ps, 1) && hi[1].arg.GetOr(0) == FirstMax(k, ps, 1) && hi[1].best == MaxCoord(k, ps, 1)
    requires lo[2].arg.GetOr(0) == FirstMin(k, ps, 2) && hi[2].arg.GetOr(0) == FirstMax(k, ps, 2) && hi[2].best == MaxCoord(k, ps, 2)
    ensures Extremes([lo[0].arg.GetOr(0), lo[1].arg.GetOr(0), lo[2].arg.GetOr(0)],
                     [hi[0].arg.GetOr(0), hi[1].arg.GetOr(0), hi[2].arg.GetOr(0)],
                     ToleranceAt(k.epsilon, Vec3(hi[0].best, hi[1].best, hi[2].best))) == ExtremesOf(k, ps)
  {
  }

  /**
   * `qhFindAABB`: one pass over the points, keeping per axis a running minimum and maximum. The
   * minimum along an axis is kept as the maximum of the negated coordinate, which makes
   * `v[j] < min[j]` the same strict comparison as the maximum's.
   */
  method FindAabb(k: Kernel, ps: seq<Vec3>) returns (e: Extremes)
    ensures e == ExtremesOf(k, ps)
  {
    var lo := seq(3, a requires 0 <= a < 3 => Running(-k.maxFloat, None));
    var hi := seq(3, a requires 0 <= a < 3 => Running(-k.maxFloat, None));
    var i := 0;
    while i < |ps|
      invariant i <= |ps| && |lo| == 3 && |hi| == 3
      invariant forall a | 0 <= a < 3 :: AxisScanned(k, ps, i, a, lo[a], hi[a])
    {
      var j := 0;
      while j < 3
        invariant j <= 3 && |lo| == 3 && |hi| == 3
        invariant forall a | 0 <= a < j :: AxisScanned(k, ps, i + 1, a, lo[a], hi[a])
        invariant forall a | j <= a < 3 :: AxisScanned(k, ps, i, a, lo[a], hi[a])
      {
        AxisVisited(k, ps, i, j, lo[j], hi[j]);
        lo := lo[j := Visit(NegAxis(ps, j), i, lo[j])];
        hi := hi[j := Visit(Axis(ps, j), i, hi[j])];
        j := j + 1;
      }
      i := i + 1;
    }
    ScannedAxis(k, ps, 0, lo[0], hi[0]);
    ScannedAxis(k, ps, 1, lo[1], hi[1]);
    ScannedAxis(k, ps, 2, lo[2], hi[2]);
    ScannedExtremes(k, ps, lo, hi);
    var iMin := [lo[0].arg.GetOr(0), lo[1].arg.GetOr(0), lo[2].arg.GetOr(0)];
    var iMax := [hi[0].arg.GetOr(0), hi[1].arg.GetOr(0), hi[2].arg.GetOr(0)];
    e := Extremes(iMin, iMax, ToleranceAt(k.epsilon, Vec3(hi[0].best, hi[1].best, hi[2].best)));
  }

  // ---------------------------------------------------------------------------------------------
  // Choosing the seed simplex.

  /** Squared length of the segment between the extremes of each axis. */
  function AxisSpans(ps: seq<Vec3>, e: Extremes): (xs: seq<real>)
    requires |e.iMin| == 3 && |e.iMax| == 3
    requires forall a | 0 <= a < 3 :: e.iMin[a] < |ps| && e.iMax[a] < |ps|
    ensures |xs| == 3 && forall a | 0 <= a < 3 :: xs[a] == DistanceSquared(ps[e.iMin[a]], ps[e.iMax[a]])
  {
    seq(3, a requires 0 <= a < 3 => DistanceSquared(ps[e.iMin[a]], ps[e.iMax[a]]))
  }

  /**
   * The longest of the three axis segments (the first one on ties), or None when none is longer
   * than epsilon: the coincidence check.
   */
  function LongestAxis(k: Kernel, ps: seq<Vec3>, e: Extremes): (r: Option<(nat, nat)>)
    requires |e.iMin| == 3 && |e.iMax| == 3
    requires forall a | 0 <= a < 3 :: e.iMin[a] < |ps| && e.iMax[a] < |ps|
    ensures r.None? <==> forall a | 0 <= a < 3 :: AxisSpans(ps, e)[a] <= k.epsilon * k.epsilon
    ensures r.Some? ==>
      && r.value.0 < |ps| && r.value.1 < |ps| && r.value.0 != r.value.1
      && DistanceSquared(ps[r.value.0], ps[r.value.1]) > k.epsilon * k.epsilon
      && exists a | 0 <= a < 3 ::
           && r.value == (e.iMin[a], e.iMax[a])
           && IsFirstMaxAbove(AxisSpans(ps, e), {}, 0.0, a)
  {
    var ds := AxisSpans(ps, e);
    assert k.epsilon * k.epsilon >= 0.0;
    match ArgMaxAbove(ds, {}, 0.0)
    case None => None
    case Some(a) => if ds[a] <= k.epsilon * k.epsilon then None else Some((e.iMin[a], e.iMax[a]))
  }

  /** Squared area of the triangle on the segment `A B` and each input point. */
  function Areas(k: Kernel, ps: seq<Vec3>, a: Vec3, b: Vec3): (xs: seq<real>)
    ensures |xs| == |ps| && forall i | 0 <= i < |ps| :: xs[i] == k.areaSquared(a, b, ps[i])
  {
    seq(|ps|, i requires 0 <= i < |ps| => k.areaSquared(a, b, ps[i]))
  }

  /**
   * The point, other than the segment's ends, spanning the largest triangle with the segment
   * (the first on ties), or None when no triangle's squared area exceeds `(2 epsilon)^2`: the
   * collinearity check.
   */
  function WidestApex(k: Kernel, ps: seq<Vec3>, i1: nat, i2: nat): (r: Option<nat>)
    requires i1 < |ps| && i2 < |ps|
    ensures r.None? <==> forall i | 0 <= i < |ps| && i != i1 && i != i2 ::
      k.areaSquared(ps[i1], ps[i2], ps[i]) <= (2.0 * k.epsilon) * (2.0 * k.epsilon)
    ensures r.Some? ==>
      && r.value < |ps| && r.value != i1 && r.value != i2
      && k.areaSquared(ps[i1], ps[i2], ps[r.value]) > (2.0 * k.epsilon) * (2.0 * k.epsilon)
      && IsFirstMaxAbove(Areas(k, ps, ps[i1], ps[i2]), {i1, i2}, 0.0, r.value)
  {
    var xs := Areas(k, ps, ps[i1], ps[i2]);
    var bound := (2.0 * k.epsilon) * (2.0 * k.epsilon);
    assert bound >= 0.0;
    match ArgMaxAbove(xs, {i1, i2}, 0.0)
    case None => None
    case Some(i) => if xs[i] <= bound then None else Some(i)
  }

  /** The plane through `A` with the normalised normal `(B - A) x (C - A)`. */
  function TrianglePlane(k: Kernel, a: Vec3, b: Vec3, c: Vec3): Plane {
    k.planeFromNormal(k.normalize(Cross(Sub(b, a), Sub(c, a))), a)
  }

  /** Unsigned distance of each input point to `plane`. */
  function Heights(ps: seq<Vec3>, plane: Plane): (xs: seq<real>)
    ensures |xs| == |ps| && forall i | 0 <= i < |ps| :: xs[i] == Abs(Distance(ps[i], plane))
  {
    seq(|ps|, i requires 0 <= i < |ps| => Abs(Distance(ps[i], plane)))
  }

  /**
   * The point, other than the triangle's corners, farthest from its plane (the first on ties), or
   * None when every other point lies within the tolerance of the plane: the coplanarity check.
   */
  function FarthestFromPlane(ps: seq<Vec3>, plane: Plane, skip: set<nat>, tolerance: real): (r: Option<nat>)
    requires tolerance >= 0.0
    ensures r.None? <==> forall i | 0 <= i < |ps| && i !in skip :: Abs(Distance(ps[i], plane)) <= tolerance
    ensures r.Some? ==>
      && r.value < |ps| && r.value !in skip
      && Abs(Distance(ps[r.value], plane)) > tolerance
      && IsFirstMaxAbove(Heights(ps, plane), skip, 0.0, r.value)
  {
    var xs := Heights(ps, plane);
    match ArgMaxAbove(xs, skip, 0.0)
    case None => None
    case Some(i) => if xs[i] <= tolerance then None else Some(i)
  }

  /** The four input indices of the seed simplex and the plane of its first three points. */
  datatype Simplex = Simplex(i1: nat, i2: nat, i3: nat, i4: nat, plane: Plane)

  datatype Selection = Selected(simplex: Simplex) | Rejected(failure: Failure)

  /**
   * What a selected simplex guarantees: four distinct input indices, its first two points more
   * than epsilon apart, its third spanning a triangle above the area bound, and its fourth off
   * the plane of the first three by more than the tolerance.
   */
  ghost predicate SimplexSound(k: Kernel, ps: seq<Vec3>, tolerance: real, s: Simplex) {
    && s.i1 < |ps| && s.i2 < |ps| && s.i3 < |ps| && s.i4 < |ps|
    && s.i1 != s.i2 && s.i1 != s.i3 && s.i1 != s.i4 && s.i2 != s.i3 && s.i2 != s.i4 && s.i3 != s.i4
    && DistanceSquared(ps[s.i1], ps[s.i2]) > k.epsilon * k.epsilon
    && k.areaSquared(ps[s.i1], ps[s.i2], ps[s.i3]) > (2.0 * k.epsilon) * (2.0 * k.epsilon)
    && s.plane == TrianglePlane(k, ps[s.i1], ps[s.i2], ps[s.i3])
    && Abs(Distance(ps[s.i4], s.plane)) > tolerance
  }

  /** The three checks of `BuildInitialHull` in order: coincidence, collinearity, coplanarity. */
  function SelectSimplex(k: Kernel, ps: seq<Vec3>, e: Extremes): (r: Selection)
    requires |e.iMin| == 3 && |e.iMax| == 3
    requires forall a | 0 <= a < 3 :: e.iMin[a] < |ps| && e.iMax[a] < |ps|
    requires e.tolerance >= 0.0
    ensures r.Rejected? ==> r.failure != InsufficientPoints
    ensures r == Rejected(Coincident) <==> forall a | 0 <= a < 3 :: AxisSpans(ps, e)[a] <= k.epsilon * k.epsilon
    ensures r == Rejected(Collinear) <==>
      && LongestAxis(k, ps, e).Some?
      && WidestApex(k, ps, LongestAxis(k, ps, e).value.0, LongestAxis(k, ps, e).value.1).None?
    ensures r == Rejected(Coplanar) <==>
      && LongestAxis(k, ps, e).Some?
      && var (i1, i2) := LongestAxis(k, ps, e).value;
      && WidestApex(k, ps, i1, i2).Some?
      && var i3 := WidestApex(k, ps, i1, i2).value;
      && FarthestFromPlane(ps, TrianglePlane(k, ps[i1], ps[i2], ps[i3]), {i1, i2, i3}, e.tolerance).None?
    ensures r.Selected? ==> SimplexSound(k, ps, e.tolerance, r.simplex)
  {
    match LongestAxis(k, ps, e)
    case None => Rejected(Coincident)
    case Some(seg) =>
      var (i1, i2) := seg;
      match WidestApex(k, ps, i1, i2)
      case None => Rejected(Collinear)
      case Some(i3) =>
        var plane := TrianglePlane(k, ps[i1], ps[i2], ps[i3]);
        match FarthestFromPlane(ps, plane, {i1, i2, i3}, e.tolerance)
        case None => Rejected(Coplanar)
        case Some(i4) =>
          var s := Simplex(i1, i2, i3, i4, plane);
          assert SimplexSound(k, ps, e.tolerance, s);
          Selected(s)
  }

  // ---------------------------------------------------------------------------------------------
  // The seed tetrahedron.

  /** The corners of the four seed faces, as `AddFace` receives them, for the side `D` lies on. */
  function SeedTriangles(v1: VertexId, v2: VertexId, v3: VertexId, v4: VertexId, below: bool): seq<Corners> {
    if below then [Corners(v1, v2, v3), Corners(v4, v2, v1), Corners(v4, v3, v2), Corners(v4, v1, v3)]
    else [Corners(v1, v3, v2), Corners(v4, v1, v2), Corners(v4, v2, v3), Corners(v4, v3, v1)]
  }

  /** The simplex's four points, in the order they are added. */
  function SimplexPoints(ps: seq<Vec3>, s: Simplex): seq<Vec3>
    requires s.i1 < |ps| && s.i2 < |ps| && s.i3 < |ps| && s.i4 < |ps|
  {
    [ps[s.i1], ps[s.i2], ps[s.i3], ps[s.i4]]
  }

  /**
   * Adds the four simplex points as hull vertices and the four faces of the tetrahedron, each
   * face wound so that its normal points away from the remaining point. Returns the new hull,
   * vertices and faces; face `i` is the `i`-th seed triangle for the side of the first three
   * points' plane the fourth lies on.
   */
  method BuildSimplex(h: Hull, k: Kernel, ps: seq<Vec3>, s: Simplex) returns (r: Hull, vs: seq<VertexId>, fs: seq<FaceId>)
    requires s.i1 < |ps| && s.i2 < |ps| && s.i3 < |ps| && s.i4 < |ps|
    ensures |vs| == 4 && |fs| == 4
    ensures VerticesAdded(h, r, vs, SimplexPoints(ps, s))
    ensures FacesAdded(h, r, fs)
    ensures ConflictsKept(h, r)
    ensures forall i | 0 <= i < 4 ::
      TriangleFace(r, k, fs[i], SeedTriangles(vs[0], vs[1], vs[2], vs[3], Distance(ps[s.i4], s.plane) < 0.0)[i], r.vertices)
  {
    var qs := SimplexPoints(ps, s);
    var added := AddVertices(h, qs);
    var h1 := added.0;
    vs := added.1;
    SeedCornersIn(h, h1, vs, qs);
    r, fs := AddSeedFaces(h1, k, vs, Distance(ps[s.i4], s.plane) < 0.0);
    SeedFrame(h, h1, r, vs, fs, qs);
  }

  /** The four seed triangles, added in order; face `i` is the `i`-th triangle. */
  method AddSeedFaces(h1: Hull, k: Kernel, vs: seq<VertexId>, below: bool) returns (r: Hull, fs: seq<FaceId>)
    requires |vs| == 4 && vs[0] in h1.vertices && vs[1] in h1.vertices && vs[2] in h1.vertices && vs[3] in h1.vertices
    ensures |fs| == 4 && FacesAdded(h1, r, fs) && r.vertices == h1.vertices && r.vertexList == h1.vertexList && ConflictsKept(h1, r)
    ensures forall i | 0 <= i < 4 :: TriangleFace(r, k, fs[i], SeedTriangles(vs[0], vs[1], vs[2], vs[3], below)[i], r.vertices)
  {
    var ts := SeedTriangles(vs[0], vs[1], vs[2], vs[3], below);
    SeedTrianglesIn(h1.vertices, vs, below);
    var faced := AddFaces(h1, k, ts);
    r, fs := faced.0, faced.1;
  }

  lemma SeedTrianglesIn(vertices: map<VertexId, Vertex>, vs: seq<VertexId>, below: bool)
    requires |vs| == 4 && vs[0] in vertices && vs[1] in vertices && vs[2] in vertices && vs[3] in vertices
    ensures CornersIn(vertices, SeedTriangles(vs[0], vs[1], vs[2], vs[3], below))
  {
  }

  lemma SeedCornersIn(h: Hull, h1: Hull, vs: seq<VertexId>, qs: seq<Vec3>)
    requires |qs| == 4 && VerticesAdded(h, h1, vs, qs)
    ensures vs[0] in h1.vertices && vs[1] in h1.vertices && vs[2] in h1.vertices && vs[3] in h1.vertices
  {
    assert vs[0] == vs[..][0];
  }

  lemma SeedFrame(h: Hull, h1: Hull, r: Hull, vs: seq<VertexId>, fs: seq<FaceId>, qs: seq<Vec3>)
    requires VerticesAdded(h, h1, vs, qs) && h1.faces == h.faces && h1.faceList == h.faceList && ConflictsKept(h, h1)
    requires FacesAdded(h1, r, fs) && r.vertices == h1.vertices && r.vertexList == h1.vertexList && ConflictsKept(h1, r)
    ensures VerticesAdded(h, r, vs, qs) && FacesAdded(h, r, fs) && ConflictsKept(h, r)
  {
  }

  // ---------------------------------------------------------------------------------------------
  // Filing the remaining points.

  /** Positions of a list of vertices. */
  function Positions(h: Hull, vs: seq<VertexId>): (ps: seq<Vec3>)
    ensures |ps| == |vs| && forall i | 0 <= i < |vs| :: ps[i] == PositionOf(h, vs[i])
  {
    seq(|vs|, i requires 0 <= i < |vs| => PositionOf(h, vs[i]))
  }

  /** The face the selection rule picks among `fs` for each point, or None when it is within the tolerance of all of them. */
  function Choices(h: Hull, fs: seq<FaceId>, ps: seq<Vec3>): (cs: seq<Option<FaceId>>)
    requires AllActive(h, fs)
    ensures |cs| == |ps| && forall i | 0 <= i < |ps| :: cs[i] == BestFace(h, fs, ps[i])
  {
    seq(|ps|, i requires 0 <= i < |ps| => BestFace(h, fs, ps[i]))
  }

  /** The choices depend only on the planes of the faces chosen among and the tolerance. */
  lemma ChoicesFrame(h: Hull, r: Hull, fs: seq<FaceId>, ps: seq<Vec3>)
    requires AllActive(h, fs) && AllActive(r, fs) && r.tolerance == h.tolerance
    requires forall j | 0 <= j < |fs| :: r.faces[fs[j]].plane == h.faces[fs[j]].plane
    ensures Choices(r, fs, ps) == Choices(h, fs, ps)
  {
    forall i | 0 <= i < |ps| ensures Choices(r, fs, ps)[i] == Choices(h, fs, ps)[i] {
      BestFaceFrame(h, r, fs, ps[i]);
    }
  }

  /** The points from position `i` on, not skipped, whose choice is `f`, in input order. */
  function FiledTo(ps: seq<Vec3>, cs: seq<Option<FaceId>>, skip: set<nat>, i: nat, f: FaceId): seq<Vec3>
    requires i <= |ps| == |cs|
    decreases |ps| - i
  {
    if i == |ps| then []
    else (if i !in skip && cs[i] == Some(f) then [ps[i]] else []) + FiledTo(ps, cs, skip, i + 1, f)
  }

  /** The number of points from position `i` on, not skipped, that have a choice. */
  function FiledCount(cs: seq<Option<FaceId>>, skip: set<nat>, i: nat): nat
    requires i <= |cs|
    decreases |cs| - i
  {
    if i == |cs| then 0
    else (if i !in skip && cs[i].Some? then 1 else 0) + FiledCount(cs, skip, i + 1)
  }

  /**
   * `r` differs from `h` at most in the conflict lists and in vertices added or re-filed: the
   * faces, edges, lists and scalars are as before and no vertex is lost or moved.
   */
  ghost predicate ListsOnly(h: Hull, r: Hull) {
    && r.faces.Keys == h.faces.Keys
    && (forall g | g in h.faces :: r.faces[g] == h.faces[g].(conflictList := r.faces[g].conflictList))
    && r.edges == h.edges && r.faceList == h.faceList && r.vertexList == h.vertexList
    && r.tolerance == h.tolerance && r.iterations == h.iterations
    && h.vertices.Keys <= r.vertices.Keys
    && (forall v | v in h.vertices :: r.vertices[v].position == h.vertices[v].position)
  }

  lemma ListsOnlyTransitive(h: Hull, m: Hull, r: Hull)
    requires ListsOnly(h, m) && ListsOnly(m, r)
    ensures ListsOnly(h, r)
  {
  }

  /**
   * Over a consistent conflict graph, filing the points of `ps` from `i` on by the choices `cs`
   * keeps it consistent, adds one pending point per point with a choice, and leaves each face's
   * list holding the points that chose it, in reverse input order, in front of what it held before.
   */
  ghost predicate Filed(h: Hull, r: Hull, ps: seq<Vec3>, cs: seq<Option<FaceId>>, skip: set<nat>, i: nat)
    requires i <= |ps| == |cs|
  {
    Consistent(h) ==>
      && Consistent(r)
      && |Pending(r)| == |Pending(h)| + FiledCount(cs, skip, i)
      && forall g | g in h.faces && g in r.faces ::
           Positions(r, r.faces[g].conflictList) == Reverse(FiledTo(ps, cs, skip, i, g)) + Positions(h, h.faces[g].conflictList)
  }

  /**
   * The distribution loop from point `i` on: each point not in `skip` goes, as a newly allocated
   * vertex, to the front of the conflict list of the face the selection rule picks among `fs`, or
   * is dropped when it is within the tolerance of every face.
   */
  function DistributeFrom(h: Hull, ps: seq<Vec3>, skip: set<nat>, fs: seq<FaceId>, i: nat): (r: Hull)
    requires i <= |ps| && AllActive(h, fs)
    ensures ListsOnly(h, r)
    ensures Filed(h, r, ps, Choices(h, fs, ps), skip, i)
    decreases |ps| - i
  {
    if i == |ps| then h
    else if i in skip || BestFace(h, fs, ps[i]).None? then
      var r := DistributeFrom(h, ps, skip, fs, i + 1);
      SkipStep(h, r, ps, Choices(h, fs, ps), skip, i);
      r
    else
      var f := BestFace(h, fs, ps[i]).value;
      BestFaceIsFarthest(h, fs, ps[i]);
      var v := FreshId(h.vertices);
      var h1 := h.(vertices := h.vertices[v := Vertex(ps[i], None)]);
      var h2 := Refile(h1, v, f);
      var r := DistributeFrom(h2, ps, skip, fs, i + 1);
      assert ListsOnly(h, h2);
      ListsOnlyTransitive(h, h2, r);
      ChoicesFrame(h, h2, fs, ps);
      NewPointFiled(h, h1, h2, v, ps[i], f);
      DistributeStep(h, h2, r, ps, Choices(h, fs, ps), skip, i, v, f);
      r
  }

  lemma SkipStep(h: Hull, r: Hull, ps: seq<Vec3>, cs: seq<Option<FaceId>>, skip: set<nat>, i: nat)
    requires i < |ps| == |cs| && (i in skip || cs[i].None?)
    requires Filed(h, r, ps, cs, skip, i + 1)
    ensures Filed(h, r, ps, cs, skip, i)
  {
    forall g ensures FiledTo(ps, cs, skip, i, g) == FiledTo(ps, cs, skip, i + 1, g) {
    }
  }

  /** `r` is `h` with the fresh vertex `v` at `p` filed at the front of the list of `f`, and nothing else changed. */
  ghost predicate PointFiled(h: Hull, r: Hull, v: VertexId, p: Vec3, f: FaceId) {
    && v !in h.vertices && f in h.faces
    && r.vertices == h.vertices[v := Vertex(p, Some(f))]
    && r.faces.Keys == h.faces.Keys
    && r.faces[f].conflictList == [v] + h.faces[f].conflictList
    && (forall g | g in h.faces && g != f :: r.faces[g] == h.faces[g])
    && Pending(r) == Pending(h) + {v}
    && (Consistent(h) ==> Consistent(r))
  }

  lemma NewPointFiled(h: Hull, h1: Hull, h2: Hull, v: VertexId, p: Vec3, f: FaceId)
    requires v !in h.vertices && f in h.faces
    requires h1 == h.(vertices := h.vertices[v := Vertex(p, None)])
    requires h2 == Refile(h1, v, f)
    ensures PointFiled(h, h2, v, p, f)
  {
    NewPointLoose(h, h1, v, p);
  }

  lemma DistributeStep(h: Hull, h2: Hull, r: Hull, ps: seq<Vec3>, cs: seq<Option<FaceId>>, skip: set<nat>, i: nat, v: VertexId, f: FaceId)
    requires i < |ps| == |cs| && i !in skip && cs[i] == Some(f)
    requires PointFiled(h, h2, v, ps[i], f)
    requires Filed(h2, r, ps, cs, skip, i + 1)
    ensures Filed(h, r, ps, cs, skip, i)
  {
    if Consistent(h) {
      assert v !in Pending(h);
      FiledPositionsAll(h, h2, r, ps, cs, skip, i, v, f);
    }
  }

  lemma FiledPositionsAll(h: Hull, h2: Hull, r: Hull, ps: seq<Vec3>, cs: seq<Option<FaceId>>, skip: set<nat>, i: nat, v: VertexId, f: FaceId)
    requires i < |ps| == |cs| && i !in skip && cs[i] == Some(f)
    requires PointFiled(h, h2, v, ps[i], f) && Consistent(h)
    requires forall g | g in h2.faces && g in r.faces ::
      Positions(r, r.faces[g].conflictList) == Reverse(FiledTo(ps, cs, skip, i + 1, g)) + Positions(h2, h2.faces[g].conflictList)
    ensures forall g | g in h.faces && g in r.faces ::
      Positions(r, r.faces[g].conflictList) == Reverse(FiledTo(ps, cs, skip, i, g)) + Positions(h, h.faces[g].conflictList)
  {
    forall g | g in h.faces && g in r.faces
      ensures Positions(r, r.faces[g].conflictList) == Reverse(FiledTo(ps, cs, skip, i, g)) + Positions(h, h.faces[g].conflictList)
    {
      assert forall j | 0 <= j < |h.faces[g].conflictList| :: h.faces[g].conflictList[j] in h.vertices;
      FiledPositions(h, h2, r, ps, cs, skip, i, v, f, g);
    }
  }

  /** A fresh vertex with no conflict face is loose, and allocating it changes nothing else. */
  lemma NewPointLoose(h: Hull, h1: Hull, v: VertexId, p: Vec3)
    requires v !in h.vertices
    requires h1 == h.(vertices := h.vertices[v := Vertex(p, None)])
    ensures Consistent(h) ==> Consistent(h1) && Loose(h1, v)
    ensures Pending(h1) == Pending(h)
  {
    if Consistent(h) {
      forall g | g in h1.faces ensures v !in h1.faces[g].conflictList {
        assert forall j | 0 <= j < |h.faces[g].conflictList| :: h.faces[g].conflictList[j] in h.vertices;
      }
    }
  }

  /** Positions of a list depend only on the positions of its members. */
  lemma PositionsFrame(h: Hull, r: Hull, vs: seq<VertexId>)
    requires forall j | 0 <= j < |vs| :: PositionOf(r, vs[j]) == PositionOf(h, vs[j])
    ensures Positions(r, vs) == Positions(h, vs)
  {
  }

  lemma PositionsCons(h: Hull, v: VertexId, vs: seq<VertexId>)
    ensures Positions(h, [v] + vs) == [PositionOf(h, v)] + Positions(h, vs)
  {
  }

  /** One filed point: the per-face list contents after the rest of the loop, in terms of the state before it. */
  lemma FiledPositions(h: Hull, h2: Hull, r: Hull, ps: seq<Vec3>, cs: seq<Option<FaceId>>, skip: set<nat>, i: nat, v: VertexId, f: FaceId, g: FaceId)
    requires i < |ps| == |cs| && i !in skip && cs[i] == Some(f)
    requires f in h.faces && g in h.faces && g in r.faces
    requires forall j | 0 <= j < |h.faces[g].conflictList| :: h.faces[g].conflictList[j] in h.vertices
    requires v !in h.vertices
    requires h2.faces.Keys == h.faces.Keys
    requires h2.faces[f].conflictList == [v] + h.faces[f].conflictList
    requires g != f ==> h2.faces[g] == h.faces[g]
    requires h2.vertices == h.vertices[v := Vertex(ps[i], Some(f))]
    requires Positions(r, r.faces[g].conflictList) == Reverse(FiledTo(ps, cs, skip, i + 1, g)) + Positions(h2, h2.faces[g].conflictList)
    ensures Positions(r, r.faces[g].conflictList) == Reverse(FiledTo(ps, cs, skip, i, g)) + Positions(h, h.faces[g].conflictList)
  {
    var before := h.faces[g].conflictList;
    var tail := FiledTo(ps, cs, skip, i + 1, g);
    UnmovedPositions(h, h2, before, v, ps[i], f);
    if g == f {
      FiledHere(ps, cs, skip, i, f, tail, before, h2, v, Positions(h, before));
    } else {
      assert FiledTo(ps, cs, skip, i, g) == tail;
    }
  }

  /** Filing a fresh vertex moves none of the vertices already allocated. */
  lemma UnmovedPositions(h: Hull, h2: Hull, before: seq<VertexId>, v: VertexId, p: Vec3, f: FaceId)
    requires forall j | 0 <= j < |before| :: before[j] in h.vertices
    requires h2.vertices == h.vertices[v := Vertex(p, Some(f))] && v !in h.vertices
    ensures Positions(h2, before) == Positions(h, before)
  {
    PositionsFrame(h, h2, before);
  }

  /** The filed point goes to the front of its face's list, so it ends up last in input order. */
  lemma FiledHere(ps: seq<Vec3>, cs: seq<Option<FaceId>>, skip: set<nat>, i: nat, f: FaceId, tail: seq<Vec3>,
                  before: seq<VertexId>, h2: Hull, v: VertexId, rest: seq<Vec3>)
    requires i < |ps| == |cs| && i !in skip && cs[i] == Some(f)
    requires tail == FiledTo(ps, cs, skip, i + 1, f)
    requires v in h2.vertices && h2.vertices[v].position == ps[i] && Positions(h2, before) == rest
    ensures Reverse(tail) + Positions(h2, [v] + before) == Reverse(FiledTo(ps, cs, skip, i, f)) + rest
  {
    var x := ps[i];
    PositionsCons(h2, v, before);
    assert Positions(h2, [v] + before) == [x] + rest;
    assert FiledTo(ps, cs, skip, i, f) == [x] + tail;
    ReverseCons(x, tail);
    calc {
      Reverse(tail) + Positions(h2, [v] + before);
      Reverse(tail) + ([x] + rest);
      (Reverse(tail) + [x]) + rest;
      Reverse([x] + tail) + rest;
      Reverse(FiledTo(ps, cs, skip, i, f)) + rest;
    }
  }

  // ---------------------------------------------------------------------------------------------
  // The whole initial step.

  /** What `BuildInitialHull` reports: the seed simplex, or why there is none. */
  datatype Outcome = Built(simplex: Simplex) | Failed(failure: Failure)

  /** The input positions the filing loop skips: the simplex's four points. */
  function SimplexIndices(s: Simplex): set<nat> {
    {s.i1, s.i2, s.i3, s.i4}
  }

  /** The three checks run on the extremes of the bounding-box scan. */
  function SelectionOf(k: Kernel, ps: seq<Vec3>): (r: Selection)
    requires |ps| >= 4 && k.epsilon >= 0.0
    ensures r.Selected? ==> SimplexSound(k, ps, Tolerance(k, ps), r.simplex)
    ensures r.Rejected? ==> r.failure != InsufficientPoints
  {
    ExtremesUsable(k, ps);
    SelectSimplex(k, ps, ExtremesOf(k, ps))
  }

  /**
   * A successful initial step: the simplex passed the checks at the hull's tolerance; the hull
   * holds exactly its four points as vertices (last added first) and the four seed faces; the conflict
   * graph is consistent; and every face's conflict list holds, last first, exactly the input
   * points other than the simplex's that the selection rule files under it, so that the pending
   * points are one per filed input point.
   */
  ghost predicate Seeded(k: Kernel, ps: seq<Vec3>, r: Hull, s: Simplex)
    requires |ps| >= 4
  {
    && SimplexSound(k, ps, r.tolerance, s)
    && |r.vertexList| == 4
    && (forall i | 0 <= i < 4 :: r.vertexList[i] in r.vertices && r.vertices[r.vertexList[i]].position == SimplexPoints(ps, s)[3 - i])
    && |r.faceList| == 4
    && SeedShaped(k, ps, r, s)
    && Consistent(r)
    && var cs := Choices(r, r.faceList, ps);
    && |Pending(r)| == FiledCount(cs, SimplexIndices(s), 0)
    && forall g | g in r.faces :: Positions(r, r.faces[g].conflictList) == Reverse(FiledTo(ps, cs, SimplexIndices(s), 0, g))
  }

  /**
   * The four listed faces, oldest last, are the seed triangles over the four listed vertices,
   * oldest last, for the side of the first three points' plane the fourth lies on.
   */
  ghost predicate SeedShaped(k: Kernel, ps: seq<Vec3>, r: Hull, s: Simplex)
    requires s.i4 < |ps| && |r.vertexList| == 4 && |r.faceList| == 4
  {
    var vl := r.vertexList;
    var ts := SeedTriangles(vl[3], vl[2], vl[1], vl[0], Distance(ps[s.i4], s.plane) < 0.0);
    forall i | 0 <= i < 4 :: TriangleFace(r, k, r.faceList[3 - i], ts[i], r.vertices)
  }

  /** Filing the remaining points leaves the seed faces as `BuildSimplex` made them. */
  lemma SeedShapedFrom(k: Kernel, ps: seq<Vec3>, s: Simplex, h: Hull, h1: Hull, vs: seq<VertexId>, fs: seq<FaceId>, r: Hull)
    requires s.i4 < |ps| && h == EmptyHull.(tolerance := h.tolerance)
    requires |vs| == 4 && |fs| == 4 && h1.vertexList == Reverse(vs) + h.vertexList && FacesAdded(h, h1, fs)
    requires forall i | 0 <= i < 4 ::
      TriangleFace(h1, k, fs[i], SeedTriangles(vs[0], vs[1], vs[2], vs[3], Distance(ps[s.i4], s.plane) < 0.0)[i], h1.vertices)
    requires ListsOnly(h1, r)
    ensures |r.vertexList| == 4 && |r.faceList| == 4 && SeedShaped(k, ps, r, s)
  {
    var ts := SeedTriangles(vs[0], vs[1], vs[2], vs[3], Distance(ps[s.i4], s.plane) < 0.0);
    assert r.vertexList == Reverse(vs) && r.faceList == Reverse(fs);
    forall i | 0 <= i < 4 ensures TriangleFace(r, k, r.faceList[3 - i], ts[i], r.vertices) {
      TriangleFaceRelisted(h1, r, k, fs[i], ts[i], h1.vertices);
      TriangleFaceMoved(r, k, fs[i], ts[i], h1.vertices, r.vertices);
    }
  }

  /**
   * `BuildInitialHull` on a freshly reset hull. It fails, building nothing, on fewer than four
   * points and on each of the three degeneracy checks; otherwise it seeds the tetrahedron and
   * files the remaining points.
   */
  method BuildInitialHull(k: Kernel, ps: seq<Vec3>) returns (r: (Hull, Outcome))
    requires k.epsilon >= 0.0
    ensures r.1 == Failed(InsufficientPoints) <==> |ps| < 4
    ensures r.1.Failed? ==> r.0 == EmptyHull.(tolerance := r.0.tolerance)
    ensures |ps| >= 4 ==> r.0.tolerance == Tolerance(k, ps)
    ensures r.0.iterations == 0
    ensures |ps| >= 4 ==> match SelectionOf(k, ps)
      case Rejected(why) => r.1 == Failed(why)
      case Selected(s) => r.1 == Built(s) && Seeded(k, ps, r.0, s)
  {
    if |ps| < 4 {
      return (EmptyHull, Failed(InsufficientPoints));
    }
    var h := EmptyHull.(tolerance := Tolerance(k, ps));
    match SelectionOf(k, ps)
    case Rejected(why) =>
      r := (h, Failed(why));
    case Selected(s) =>
      var seeded := Seed(k, ps, h, s);
      r := (seeded, Built(s));
  }

  /** The success path: the seed tetrahedron on the reset hull, then the filing loop over its four faces. */
  method Seed(k: Kernel, ps: seq<Vec3>, h: Hull, s: Simplex) returns (r: Hull)
    requires |ps| >= 4 && h == EmptyHull.(tolerance := h.tolerance)
    requires SimplexSound(k, ps, h.tolerance, s)
    ensures r.tolerance == h.tolerance && r.iterations == h.iterations
    ensures Seeded(k, ps, r, s)
  {
    var h1, vs, fs := BuildSimplex(h, k, ps, s);
    SeedListed(h, h1, fs);
    r := DistributeFrom(h1, ps, SimplexIndices(s), h1.faceList, 0);
    SeedVertices(ps, s, h, h1, vs, r);
    SeedShapedFrom(k, ps, s, h, h1, vs, fs, r);
    SeedFiled(ps, s, h1, r);
  }

  /** The seed tetrahedron's conflict graph is consistent and its four faces are all listed. */
  lemma SeedListed(h: Hull, h1: Hull, fs: seq<FaceId>)
    requires h == EmptyHull.(tolerance := h.tolerance) && |fs| == 4
    requires FacesAdded(h, h1, fs) && ConflictsKept(h, h1)
    ensures Consistent(h1) && AllActive(h1, h1.faceList) && |h1.faceList| == 4
    ensures Pending(h1) == {}
    ensures forall g | g in h1.faces :: h1.faces[g].conflictList == []
  {
    assert Consistent(h);
    forall g | g in h1.faces ensures h1.faces[g].conflictList == [] {
      var i :| 0 <= i < |fs| && fs[i] == g;
    }
  }

  /** The filing loop keeps the four simplex points as the listed vertices, last added first. */
  lemma SeedVertices(ps: seq<Vec3>, s: Simplex, h: Hull, h1: Hull, vs: seq<VertexId>, r: Hull)
    requires s.i1 < |ps| && s.i2 < |ps| && s.i3 < |ps| && s.i4 < |ps|
    requires h == EmptyHull.(tolerance := h.tolerance)
    requires |vs| == 4 && VerticesAdded(h, h1, vs, SimplexPoints(ps, s)) && ListsOnly(h1, r)
    ensures |r.vertexList| == 4
    ensures forall i | 0 <= i < 4 :: r.vertexList[i] in r.vertices && r.vertices[r.vertexList[i]].position == SimplexPoints(ps, s)[3 - i]
  {
    assert h1.vertexList == Reverse(vs);
  }

  /** The filing loop leaves the conflict lists and pending points `Seeded` describes. */
  lemma SeedFiled(ps: seq<Vec3>, s: Simplex, h1: Hull, r: Hull)
    requires Consistent(h1) && AllActive(h1, h1.faceList) && Pending(h1) == {}
    requires forall g | g in h1.faces :: h1.faces[g].conflictList == []
    requires ListsOnly(h1, r) && Filed(h1, r, ps, Choices(h1, h1.faceList, ps), SimplexIndices(s), 0)
    ensures Consistent(r)
    ensures |Pending(r)| == FiledCount(Choices(r, r.faceList, ps), SimplexIndices(s), 0)
    ensures forall g | g in r.faces ::
      Positions(r, r.faces[g].conflictList) == Reverse(FiledTo(ps, Choices(r, r.faceList, ps), SimplexIndices(s), 0, g))
  {
    ListsOnlyKeepsChoices(h1, r, ps);
  }

  /** Filing does not change what the selection rule picks. */
  lemma ListsOnlyKeepsChoices(h: Hull, r: Hull, ps: seq<Vec3>)
    requires AllActive(h, h.faceList) && ListsOnly(h, r)
    ensures AllActive(r, r.faceList)
    ensures Choices(r, r.faceList, ps) == Choices(h, h.faceList, ps)
  {
    ChoicesFrame(h, r, h.faceList, ps);
  }
}
