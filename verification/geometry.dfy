/**
 * Vectors and planes over the reals. The combinatorial core of the hull builder only ever
 * compares signed distances against a tolerance, so the floating-point kernel (normalisation,
 * triangle area, plane construction, Newell's method) is an uninterpreted `Kernel` that every
 * geometric operation receives as a parameter.
 */
module Geometry {

  datatype Vec3 = Vec3(x: real, y: real, z: real)

  const Zero: Vec3 := Vec3(0.0, 0.0, 0.0)

  /** Component `axis` (0, 1 or 2) of `v`, as `v[axis]` reads it. */
  function Coord(v: Vec3, axis: nat): real
    requires axis < 3
  {
    if axis == 0 then v.x else if axis == 1 then v.y else v.z
  }

  function Add(a: Vec3, b: Vec3): Vec3 {
    Vec3(a.x + b.x, a.y + b.y, a.z + b.z)
  }

  function Sub(a: Vec3, b: Vec3): Vec3 {
    Vec3(a.x - b.x, a.y - b.y, a.z - b.z)
  }

  function Scale(s: real, a: Vec3): Vec3 {
    Vec3(s * a.x, s * a.y, s * a.z)
  }

  function Dot(a: Vec3, b: Vec3): real {
    a.x * b.x + a.y * b.y + a.z * b.z
  }

  function Cross(a: Vec3, b: Vec3): Vec3 {
    Vec3(a.y * b.z - a.z * b.y, a.z * b.x - a.x * b.z, a.x * b.y - a.y * b.x)
  }

  function Abs(r: real): real {
    if r < 0.0 then -r else r
  }

  /** Squared Euclidean distance between two points. */
  function DistanceSquared(a: Vec3, b: Vec3): (d: real)
    ensures d >= 0.0
    ensures a == b ==> d == 0.0
  {
    var v := Sub(a, b);
    Dot(v, v)
  }

  /** A plane `dot(normal, p) == offset`. */
  datatype Plane = Plane(normal: Vec3, offset: real)

  /** Signed distance of `p` above `plane` (positive on the side the normal points to). */
  function Distance(p: Vec3, plane: Plane): real {
    Dot(plane.normal, p) - plane.offset
  }

  /** Componentwise sum of a list of points. */
  function Sum(ps: seq<Vec3>): Vec3 {
    if |ps| == 0 then Zero else Add(ps[0], Sum(ps[1..]))
  }

  /** Average of a non-empty list of points. */
  function Centroid(ps: seq<Vec3>): Vec3
    requires |ps| > 0
  {
    Scale(1.0 / (|ps| as real), Sum(ps))
  }

  /**
   * The floating-point part of the geometry, left uninterpreted: the machine epsilon and the
   * largest finite float, squared triangle area, vector normalisation and the two plane
   * constructors (from three points, and from a normal and a point).
   */
  datatype Kernel = Kernel(
    epsilon: real,
    maxFloat: real,
    areaSquared: (Vec3, Vec3, Vec3) -> real,
    normalize: Vec3 -> Vec3,
    planeFromNormal: (Vec3, Vec3) -> Plane,
    planeFromPoints: (Vec3, Vec3, Vec3) -> Plane)

  // ---------------------------------------------------------------------------------------------
  // Newell's method: the normal of a polygon as a sum over its consecutive vertex pairs.

  /** The contribution of the polygon side from `a` to `b`. */
  function Newell(a: Vec3, b: Vec3): Vec3 {
    Vec3((a.y - b.y) * (a.z + b.z), (a.z - b.z) * (a.x + b.x), (a.x - b.x) * (a.y + b.y))
  }

  /** Sum of the contributions of the sides leaving `ps[i]`, ..., `ps[|ps| - 1]`; the last side closes the polygon. */
  function NewellFrom(ps: seq<Vec3>, i: nat): Vec3
    requires i <= |ps|
    decreases |ps| - i
  {
    if i == |ps| then Zero
    else Add(Newell(ps[i], ps[(i + 1) % |ps|]), NewellFrom(ps, i + 1))
  }

  /** The (unnormalised) Newell normal of the closed polygon `ps`. */
  function NewellSum(ps: seq<Vec3>): Vec3 {
    NewellFrom(ps, 0)
  }

  /** For a triangle, Newell's sum is the cross product of two sides: twice the area vector. */
  lemma NewellTriangle(a: Vec3, b: Vec3, c: Vec3)
    ensures NewellSum([a, b, c]) == Cross(Sub(b, a), Sub(c, a))
  {
    var ps := [a, b, c];
    assert NewellFrom(ps, 2) == Add(Newell(c, a), Zero) by { assert (2 + 1) % 3 == 0; }
    assert NewellFrom(ps, 1) == Add(Newell(b, c), NewellFrom(ps, 2)) by { assert (1 + 1) % 3 == 2; }
    assert NewellFrom(ps, 0) == Add(Newell(a, b), NewellFrom(ps, 1)) by { assert (0 + 1) % 3 == 1; }
  }

  /**
   * The plane through the centroid of `ps` whose normal is the normalised Newell normal, and that
   * centroid; the pair `b3ComputePlane` stores in a face.
   */
  function PolygonPlane(k: Kernel, ps: seq<Vec3>): (r: (Plane, Vec3))
    requires |ps| > 0
    ensures r.1 == Centroid(ps)
    ensures r.0.normal == k.normalize(NewellSum(ps))
    ensures Distance(r.1, r.0) == 0.0
  {
    var c := Centroid(ps);
    var n := k.normalize(NewellSum(ps));
    (Plane(n, Dot(n, c)), c)
  }
}
