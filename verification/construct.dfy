/**
 * `qhHull::Construct`: the capacity counts derived from the point count, the initial simplex,
 * and the main loop that adds the farthest conflict point to the hull until no conflict point
 * lies farther than the tolerance above its face.
 */
module Construct {
  import opened Options
  import opened Geometry
  import opened Mesh
  import opened Conflicts
  import opened Horizon
  import opened InitialHull
  import opened Expansion
  import opened Merge

  // ---------------------------------------------------------------------------------------------
  // Capacity counts.

  /** The modulus of `qhHull`'s unsigned 32-bit counts. */
  const U32: int := 0x1_0000_0000

  /** Unsigned 32-bit wrap-around of an exact result. */
  function Wrap(x: int): (r: nat)
    ensures r < U32
    ensures 0 <= x < U32 ==> r == x
  {
    x % U32
  }

  /** How many vertices, half-edges and faces the construction reserves room for. */
  datatype Capacity = Capacity(vertices: nat, halfEdges: nat, faces: nat)

  /**
   * The counts exactly as `Construct` computes them, every step in unsigned 32-bit arithmetic:
   * E = 3V - 6, HE = 2E, F = 2V - 4, then HE and F doubled.
   */
  function CapacityAsWritten(count: nat): (c: Capacity)
    requires count < U32
    ensures c.vertices == count && c.halfEdges < U32 && c.faces < U32
  {
    var e := Wrap(3 * count - 6);
    var he := Wrap(2 * e);
    var f := Wrap(2 * count - 4);
    Capacity(count, Wrap(2 * he), Wrap(2 * f))
  }

  /**
   * The counts Euler's formula gives for a closed triangulated hull on `count` vertices
   * (3V - 6 edges, 2V - 4 faces), doubled as `qhHull` doubles them, and none when there are fewer than
   * two points.
   */
  function HullCapacity(count: nat): (c: Capacity)
    ensures c.vertices == count
    ensures count >= 2 ==> c.vertices - c.halfEdges / 4 + c.faces / 2 == 2
    ensures count < 2 ==> c.halfEdges == 0 && c.faces == 0
    ensures c.halfEdges <= 12 * count && c.faces <= 4 * count
  {
    var e := if count >= 2 then 3 * count - 6 else 0;
    var f := if count >= 2 then 2 * count - 4 else 0;
    Capacity(count, 4 * e, 2 * f)
  }

  /** Wherever nothing wraps, `qhHull`'s counts are the Euler counts. */
  lemma CapacityAgrees(count: nat)
    requires 2 <= count && 12 * count < U32
    ensures CapacityAsWritten(count) == HullCapacity(count)
  {
    assert Wrap(3 * count - 6) == 3 * count - 6;
    assert Wrap(2 * (3 * count - 6)) == 6 * count - 12;
    assert Wrap(2 * (6 * count - 12)) == 12 * count - 24;
    assert Wrap(2 * count - 4) == 2 * count - 4;
    assert Wrap(2 * (2 * count - 4)) == 4 * count - 8;
  }

  /**
   * On fewer than two points `3 * V - 6` and `2 * V - 4` wrap around: `qhHull` reserves, and
   * then walks with its free-list loops, about four billion half-edges and faces.
   */
  lemma CapacityWrapsBelowTwo(count: nat)
    requires count < 2
    ensures CapacityAsWritten(count).halfEdges >= U32 - 24 && CapacityAsWritten(count).faces >= U32 - 8
    ensures HullCapacity(count).halfEdges == 0 && HullCapacity(count).faces == 0
  {
    if count == 0 {
      assert Wrap(3 * count - 6) == U32 - 6;
      assert Wrap(2 * (U32 - 6)) == U32 - 12;
      assert Wrap(2 * (U32 - 12)) == U32 - 24;
      assert Wrap(2 * count - 4) == U32 - 4;
      assert Wrap(2 * (U32 - 4)) == U32 - 8;
    } else {
      assert Wrap(3 * count - 6) == U32 - 3;
      assert Wrap(2 * (U32 - 3)) == U32 - 6;
      assert Wrap(2 * (U32 - 6)) == U32 - 12;
      assert Wrap(2 * count - 4) == U32 - 2;
      assert Wrap(2 * (U32 - 2)) == U32 - 4;
    }
  }

  /** Wrapping before a doubling is the same as wrapping after it. */
  lemma WrapDouble(x: int)
    ensures Wrap(2 * Wrap(x)) == Wrap(2 * x)
  {
    var q := x / U32;
    assert x == q * U32 + Wrap(x);
    assert 2 * x == 2 * Wrap(x) + (2 * q) * U32;
    ModuloShift(2 * Wrap(x), 2 * q);
  }

  /** Adding a multiple of the modulus does not change the wrapped value. */
  lemma {:induction false} ModuloShift(a: int, n: int)
    ensures Wrap(a + n * U32) == Wrap(a)
    decreases if n < 0 then -n else n
  {
    if n > 0 {
      ModuloShift(a, n - 1);
      assert a + n * U32 == (a + (n - 1) * U32) + U32;
    } else if n < 0 {
      ModuloShift(a, n + 1);
      assert a + n * U32 == (a + (n + 1) * U32) - U32;
    }
  }

  /**
   * From two points on, `qhHull`'s counts are the Euler counts reduced modulo 2^32: they agree
   * with `HullCapacity` below the modulus and wrap above it.
   */
  lemma CapacityModular(count: nat)
    requires 2 <= count < U32
    ensures CapacityAsWritten(count).halfEdges == Wrap(HullCapacity(count).halfEdges)
    ensures CapacityAsWritten(count).faces == Wrap(HullCapacity(count).faces)
  {
    WrapDouble(3 * count - 6);
    WrapDouble(2 * (3 * count - 6));
    WrapDouble(2 * count - 4);
  }

  /** On 357913944 points the reserved half-edge count wraps around to 8. */
  lemma CapacityWrapsAbove()
    ensures CapacityAsWritten(357913944).halfEdges == 8
    ensures HullCapacity(357913944).halfEdges == U32 + 8
  {
    CapacityModular(357913944);
  }

  // ---------------------------------------------------------------------------------------------
  // One step of the main loop.

  /** Under a consistent conflict graph a pending point is filed under an active face. */
  lemma PendingFiled(h: Hull, eye: VertexId)
    requires Consistent(h) && eye in Pending(h)
    ensures EyeFiled(h, eye)
  {
  }

  /**
   * `AddEyeVertex`: `FindHorizon` (mark the faces the eye sees, collect and sort the horizon),
   * `AddNewFaces` and `MergeFaces` over the new faces. None when the sorted horizon is empty or
   * has an edge without a usable tail, where `qhHull` has no defined behaviour. A step that
   * adds the point takes the eye, and possibly more points, off the conflict lists.
   */
  method AddEyeVertex(h: Hull, k: Kernel, eye: VertexId) returns (r: Option<Hull>)
    requires Consistent(h) && eye in Pending(h)
    ensures r.Some? ==> Consistent(r.value) && Pending(r.value) <= Pending(h) - {eye}
    ensures r.Some? ==> Pending(r.value) < Pending(h) && |Pending(r.value)| < |Pending(h)|
    ensures r.Some? ==> |r.value.vertexList| == |h.vertexList| + 1 && r.value.vertexList[1..] == h.vertexList
    ensures r.Some? ==> r.value.tolerance == h.tolerance && r.value.iterations == h.iterations
    ensures r.None? <==>
      var m := FindHorizonEdges(h, PositionOf(h, eye));
      !HorizonUsable(m.0, eye, SortHorizon(m.0, m.1))
  {
    var found := FindHorizonEdges(h, PositionOf(h, eye));
    var m, hs := found.0, found.1;
    var sorted := SortHorizon(m, hs);
    MarksKeep(h, m);
    if !HorizonUsable(m, eye, sorted) {
      return None;
    }
    var e := AddNewFaces(m, k, eye, sorted);
    var g := MergeFaces(e.hull, k, e.newFaces);
    ProperSubset(Pending(g), Pending(h), eye);
    return Some(g);
  }

  /** A set that misses a member of another and has nothing else is strictly smaller. */
  lemma ProperSubset<T>(a: set<T>, b: set<T>, x: T)
    requires a <= b - {x} && x in b
    ensures a < b && |a| < |b|
  {
    var c := b - {x};
    assert b == c + {x} && |b| == |c| + 1;
    assert c == a + (c - a) && |c| == |a| + |c - a|;
  }

  // ---------------------------------------------------------------------------------------------
  // The main loop.

  /** How the construction ended. */
  datatype Status =
    | NotBuilt(failure: Failure)  // `BuildInitialHull` returned false
    | Complete                    // `FindEyeVertex` found no point
    | HorizonBroken               // a horizon the new faces cannot be built on

  /** No conflict point lies more than the tolerance above the face it is filed under. */
  ghost predicate Settled(h: Hull)
    requires Consistent(h)
  {
    forall f, v | f in h.faceList && v in h.faces[f].conflictList :: CandidateDistance(h, Candidate(v, f)) <= h.tolerance
  }

  /** With no eye found every conflict point is within the tolerance of its face. */
  lemma NoEyeSettled(h: Hull)
    requires Consistent(h) && FindEyeVertex(h).None?
    ensures Settled(h)
  {
  }

  /** What `Construct` leaves behind. */
  datatype Construction = Construction(hull: Hull, capacity: Capacity, status: Status)

  /**
   * `Construct` on `ps`: reserve the capacity counts in 32-bit arithmetic, reset, build the
   * initial hull, then, while `FindEyeVertex` finds a point, add it and count one more iteration. It builds nothing when `BuildInitialHull`
   * fails. Otherwise each iteration adds one hull vertex and takes at least one point off the
   * conflict lists, so the loop runs at most once per input point outside the simplex; when it
   * ends normally no conflict point lies above its face by more than the tolerance.
   */
  method Construct(k: Kernel, ps: seq<Vec3>) returns (r: Construction)
    requires k.epsilon >= 0.0 && |ps| < U32
    ensures r.capacity == CapacityAsWritten(|ps|)
    ensures r.capacity.vertices == |ps| && r.capacity.halfEdges < U32 && r.capacity.faces < U32
    ensures 2 <= |ps| && 12 * |ps| < U32 ==> r.capacity == HullCapacity(|ps|)
    ensures |ps| < 2 ==> r.capacity.halfEdges >= U32 - 24 && r.capacity.faces >= U32 - 8
    ensures r.status == NotBuilt(InsufficientPoints) <==> |ps| < 4
    ensures |ps| >= 4 ==> (r.status.NotBuilt? <==> SelectionOf(k, ps).Rejected?)
    ensures r.status.NotBuilt? ==> r.hull == EmptyHull.(tolerance := r.hull.tolerance)
    ensures !r.status.NotBuilt? ==> Consistent(r.hull) && r.hull.iterations <= |ps| - 4
    ensures !r.status.NotBuilt? ==> |r.hull.vertexList| == 4 + r.hull.iterations
    ensures r.status == Complete ==> Settled(r.hull)
  {
    var capacity := CapacityAsWritten(|ps|);
    if 2 <= |ps| && 12 * |ps| < U32 {
      CapacityAgrees(|ps|);
    } else if |ps| < 2 {
      CapacityWrapsBelowTwo(|ps|);
    }
    var start := Start(k, ps);
    if start.1.Failed? {
      return Construction(start.0, capacity, NotBuilt(start.1.failure));
    }
    var h := start.0;
    var eye := FindEyeVertex(h);
    while eye.Some?
      invariant Consistent(h) && eye == FindEyeVertex(h)
      invariant h.iterations + |Pending(h)| <= |ps| - 4
      invariant |h.vertexList| == 4 + h.iterations
      decreases |Pending(h)|
    {
      EyeIsPending(h);
      var next := AddEyeVertex(h, k, eye.value.v);
      if next.None? {
        return Construction(h, capacity, HorizonBroken);
      }
      var g := next.value;
      h := g.(iterations := g.iterations + 1);
      ConflictsUnchanged(g, h);
      eye := FindEyeVertex(h);
    }
    NoEyeSettled(h);
    return Construction(h, capacity, Complete);
  }

  /**
   * The reset and `BuildInitialHull`. On success the conflict graph is consistent, the four
   * simplex points are the hull vertices, no iteration has run, and at most one point per input
   * point outside the simplex is pending.
   */
  method Start(k: Kernel, ps: seq<Vec3>) returns (r: (Hull, Outcome))
    requires k.epsilon >= 0.0
    ensures r.1 == Failed(InsufficientPoints) <==> |ps| < 4
    ensures |ps| >= 4 ==> (r.1.Failed? <==> SelectionOf(k, ps).Rejected?)
    ensures r.1.Failed? ==> r.0 == EmptyHull.(tolerance := r.0.tolerance)
    ensures r.1.Built? ==> Consistent(r.0) && |Pending(r.0)| <= |ps| - 4
    ensures r.1.Built? ==> |r.0.vertexList| == 4 && r.0.iterations == 0
  {
    r := BuildInitialHull(k, ps);
    if r.1.Built? {
      SeedPending(k, ps, r.0, r.1.simplex);
    }
  }

  /** The seeded hull has at most one pending point per input point outside the simplex. */
  lemma SeedPending(k: Kernel, ps: seq<Vec3>, h: Hull, s: Simplex)
    requires |ps| >= 4 && Seeded(k, ps, h, s)
    ensures |Pending(h)| <= |ps| - 4
  {
    var cs := Choices(h, h.faceList, ps);
    assert |Pending(h)| == FiledCount(cs, SimplexIndices(s), 0);
    assert SimplexSound(k, ps, h.tolerance, s);
    FiledAtMost(cs, s);
  }

  /** The filing loop counts at most the points outside the four simplex positions. */
  lemma FiledAtMost(cs: seq<Option<FaceId>>, s: Simplex)
    requires s.i1 < |cs| && s.i2 < |cs| && s.i3 < |cs| && s.i4 < |cs|
    requires s.i1 != s.i2 && s.i1 != s.i3 && s.i1 != s.i4 && s.i2 != s.i3 && s.i2 != s.i4 && s.i3 != s.i4
    ensures FiledCount(cs, SimplexIndices(s), 0) <= |cs| - 4
  {
    FiledCountBound(cs, SimplexIndices(s), 0);
    assert SkippedFrom(cs, SimplexIndices(s), 0) == SimplexIndices(s);
    assert |SimplexIndices(s)| == 4;
  }

  /** The positions from `i` on that the filing loop skips. */
  function SkippedFrom(cs: seq<Option<FaceId>>, skip: set<nat>, i: nat): set<nat> {
    set j | j in skip && i <= j < |cs|
  }

  /** Each point counted by the filing loop is a point from `i` on that is not skipped. */
  lemma {:induction false} FiledCountBound(cs: seq<Option<FaceId>>, skip: set<nat>, i: nat)
    requires i <= |cs|
    ensures FiledCount(cs, skip, i) + |SkippedFrom(cs, skip, i)| <= |cs| - i
    decreases |cs| - i
  {
    if i < |cs| {
      FiledCountBound(cs, skip, i + 1);
      if i in skip {
        assert SkippedFrom(cs, skip, i) == SkippedFrom(cs, skip, i + 1) + {i};
      } else {
        assert SkippedFrom(cs, skip, i) == SkippedFrom(cs, skip, i + 1);
      }
    } else {
      assert SkippedFrom(cs, skip, i) == {};
    }
  }
}
