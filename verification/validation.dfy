/**
 * The debug validators of the hull builder as predicates that hold exactly when every assertion
 * they make passes and every loop they run ends, and the mesh invariant behind them.
 */
module Validation {
  import opened Options
  import opened Geometry
  import opened Sequences
  import opened Mesh
  import opened Orbits

  // ---------------------------------------------------------------------------------------------
  // The validators.

  /** One step of the walk around the head of `x`: to `x.next`, then across to its twin. */
  function FanStep(edges: map<EdgeId, HalfEdge>, x: EdgeId): Option<EdgeId> {
    if x in edges && edges[x].next.Some? && edges[x].next.value in edges then edges[edges[x].next.value].twin
    else None
  }

  /** The walk from `cur` comes back to `start` within `fuel` steps without a NULL or freed edge. */
  predicate FanReturns(edges: map<EdgeId, HalfEdge>, start: EdgeId, cur: EdgeId, fuel: nat)
    decreases fuel
  {
    && fuel > 0
    && match FanStep(edges, cur)
       case None => false
       case Some(n) => n == start || FanReturns(edges, start, n, fuel - 1)
  }

  /**
   * `Validate(edge)`: the edge and its twin are active and paired, both tails are active, the
   * endpoints are more than epsilon apart, the next edge is active and starts where the twin
   * does, and the counting walk around the head vertex ends.
   */
  predicate EdgeValid(h: Hull, eps: real, e: EdgeId) {
    && e in h.edges
    && h.edges[e].twin.Some? && h.edges[e].twin.value in h.edges
    && var t := h.edges[e].twin.value;
    && h.edges[t].twin == Some(e)
    && h.edges[e].tail.Some? && h.edges[e].tail.value in h.vertices
    && h.edges[t].tail.Some? && h.edges[t].tail.value in h.vertices
    && DistanceSquared(h.vertices[h.edges[e].tail.value].position, h.vertices[h.edges[t].tail.value].position) > eps * eps
    && h.edges[e].next.Some? && h.edges[e].next.value in h.edges
    && h.edges[t].tail == h.edges[h.edges[e].next.value].tail
    && FanReturns(h.edges, e, e, |h.edges|)
  }

  /** `Validate(face)`: the face is active, its boundary closes over active edges that name it, and its edge is valid. */
  predicate FaceValid(h: Hull, eps: real, f: FaceId) {
    && f in h.faces
    && FaceLoop(h, f).Some?
    && (forall i | 0 <= i < |FaceLoop(h, f).value| ::
          var x := FaceLoop(h, f).value[i];
          x in h.edges && h.edges[x].face == Some(f))
    && EdgeValid(h, eps, h.faces[f].edge)
  }

  /** `Validate()`: every listed vertex and face is active, so is every conflict point, and every listed face is valid. */
  predicate HullValid(h: Hull, eps: real) {
    && (forall i | 0 <= i < |h.vertexList| :: h.vertexList[i] in h.vertices)
    && (forall i | 0 <= i < |h.faceList| ::
          && h.faceList[i] in h.faces
          && (forall j | 0 <= j < |h.faces[h.faceList[i]].conflictList| ::
                h.faces[h.faceList[i]].conflictList[j] in h.vertices)
          && FaceValid(h, eps, h.faceList[i]))
  }

  // ---------------------------------------------------------------------------------------------
  // The mesh invariant.

  /** The pointer conditions on one half-edge of a closed mesh. */
  ghost predicate EdgeLinked(h: Hull, x: EdgeId)
    requires x in h.edges
  {
    var he := h.edges[x];
    && he.twin.Some? && he.twin.value in h.edges && he.twin.value != x
    && h.edges[he.twin.value].twin == Some(x)
    && he.tail.Some? && he.tail.value in h.vertices
    && he.face.Some? && he.face.value in h.faces
    && he.next.Some? && he.next.value in h.edges && h.edges[he.next.value].prev == Some(x)
    && he.prev.Some? && he.prev.value in h.edges && h.edges[he.prev.value].next == Some(x)
    && h.edges[he.twin.value].tail == h.edges[he.next.value].tail
  }

  /** The local conditions on one half-edge: linked, and its endpoints more than epsilon apart. */
  ghost predicate EdgeSound(h: Hull, eps: real, x: EdgeId)
    requires x in h.edges
  {
    && EdgeLinked(h, x)
    && var t := h.edges[x].twin.value;
    && h.edges[t].tail.Some? && h.edges[t].tail.value in h.vertices
    && DistanceSquared(h.vertices[h.edges[x].tail.value].position, h.vertices[h.edges[t].tail.value].position) > eps * eps
  }

  /** Every face's boundary is a simple loop, linked both ways, of edges that name that face. */
  ghost predicate FaceSound(h: Hull, f: FaceId)
    requires f in h.faces
  {
    && FaceLoop(h, f).Some?
    && IsLoop(h.edges, FaceLoop(h, f).value)
    && PrevInverse(h.edges, FaceLoop(h, f).value)
    && forall i | 0 <= i < |FaceLoop(h, f).value| :: h.edges[FaceLoop(h, f).value[i]].face == Some(f)
  }

  /**
   * The invariant the validators check and the builder maintains between steps: the face list
   * holds exactly the active faces, listed vertices and conflict points are active, every
   * half-edge satisfies the local conditions and lies on its face's boundary, and every boundary
   * is a simple loop.
   */
  ghost predicate WellFormed(h: Hull, eps: real) {
    && FacesListed(h)
    && (forall i | 0 <= i < |h.vertexList| :: h.vertexList[i] in h.vertices)
    && (forall f, j | f in h.faces && 0 <= j < |h.faces[f].conflictList| :: h.faces[f].conflictList[j] in h.vertices)
    && EdgesSound(h, eps)
    && (forall f | f in h.faces :: FaceSound(h, f))
    && (forall x {:trigger OnOwnLoop(h, x)} | x in h.edges :: OnOwnLoop(h, x))
  }

  /** `x` lies on the boundary of the face it names. */
  ghost predicate OnOwnLoop(h: Hull, x: EdgeId) {
    && x in h.edges
    && h.edges[x].face.Some? && h.edges[x].face.value in h.faces
    && FaceLoop(h, h.edges[x].face.value).Some?
    && x in FaceLoop(h, h.edges[x].face.value).value
  }

  // ---------------------------------------------------------------------------------------------
  // The invariant implies what the validators check.

  /** The walk step as a map, defined where it does not hit a NULL or freed edge. */
  function FanMap(edges: map<EdgeId, HalfEdge>): (m: map<nat, nat>)
    ensures m.Keys <= edges.Keys
  {
    map x | x in edges && FanStep(edges, x).Some? :: FanStep(edges, x).value
  }

  lemma FanMapHas(edges: map<EdgeId, HalfEdge>, x: EdgeId)
    requires x in edges && FanStep(edges, x).Some?
    ensures x in FanMap(edges)
  {
  }

  lemma FanMapAt(edges: map<EdgeId, HalfEdge>, x: EdgeId)
    requires x in FanMap(edges)
    ensures FanStep(edges, x) == Some(FanMap(edges)[x])
  {
  }

  /** Every half-edge satisfies the local conditions. */
  ghost predicate EdgesSound(h: Hull, eps: real) {
    forall x {:trigger EdgeSound(h, eps, x)} | x in h.edges :: EdgeSound(h, eps, x)
  }

  ghost predicate EdgesLinked(h: Hull) {
    forall x {:trigger EdgeLinked(h, x)} | x in h.edges :: EdgeLinked(h, x)
  }

  lemma SoundLinked(h: Hull, eps: real)
    requires EdgesSound(h, eps)
    ensures EdgesLinked(h)
  {
    forall x | x in h.edges ensures EdgeLinked(h, x) {
      assert EdgeSound(h, eps, x);
    }
  }

  lemma FanStepInjective(h: Hull, x: EdgeId, y: EdgeId)
    requires EdgesLinked(h) && x in h.edges && y in h.edges
    requires FanStep(h.edges, x).Some? && FanStep(h.edges, x) == FanStep(h.edges, y)
    ensures x == y
  {
    assert EdgeLinked(h, x) && EdgeLinked(h, y);
    var nx, ny := h.edges[x].next.value, h.edges[y].next.value;
    assert EdgeLinked(h, nx) && EdgeLinked(h, ny);
  }

  lemma FanStepClosed(h: Hull, x: EdgeId)
    requires EdgesLinked(h) && x in h.edges
    ensures FanStep(h.edges, x).Some? && FanStep(h.edges, x).value in h.edges
  {
    assert EdgeLinked(h, x);
    var n := h.edges[x].next.value;
    assert n in h.edges;
    assert EdgeLinked(h, n);
    assert h.edges[n].twin.Some?;
    assert FanStep(h.edges, x) == h.edges[n].twin;
  }

  /** On a mesh whose half-edges are all linked, the walk step is defined on every half-edge. */
  lemma FanMapTotal(h: Hull)
    requires EdgesLinked(h)
    ensures FanMap(h.edges).Keys == h.edges.Keys
  {
    forall x | x in h.edges ensures x in FanMap(h.edges) {
      FanStepClosed(h, x);
      FanMapHas(h.edges, x);
    }
  }

  /** On a mesh whose half-edges are all linked, the walk step is one-to-one on all half-edges. */
  lemma FanMapPermutes(h: Hull)
    requires EdgesLinked(h)
    ensures FanMap(h.edges).Keys == h.edges.Keys
    ensures Permutes(FanMap(h.edges))
  {
    var m := FanMap(h.edges);
    FanMapTotal(h);
    forall x, y | x in m && y in m && m[x] == m[y] ensures x == y {
      FanMapAt(h.edges, x);
      FanMapAt(h.edges, y);
      FanStepInjective(h, x, y);
    }
    forall v | v in m.Values ensures v in m.Keys {
      var x :| x in m && m[x] == v;
      FanMapAt(h.edges, x);
      FanStepClosed(h, x);
    }
  }

  /** Reaching `start` after `n` steps makes the validator's walk end. */
  lemma {:induction false} IterateReturns(edges: map<EdgeId, HalfEdge>, start: EdgeId, cur: EdgeId, n: nat, fuel: nat)
    requires cur in FanMap(edges) && Permutes(FanMap(edges))
    requires 1 <= n <= fuel && Iterate(FanMap(edges), cur, n) == start
    ensures FanReturns(edges, start, cur, fuel)
    decreases n
  {
    var m := FanMap(edges);
    IterateFirst(m, cur, n);
    var nx := m[cur];
    if nx != start {
      assert n > 1;
      IterateReturns(edges, start, nx, n - 1, fuel - 1);
    }
  }

  lemma WellFormedEdgeValid(h: Hull, eps: real, e: EdgeId)
    requires WellFormed(h, eps) && e in h.edges
    ensures EdgeValid(h, eps, e)
  {
    assert EdgeSound(h, eps, e);
    SoundLinked(h, eps);
    FanMapPermutes(h);
    OrbitReturns(FanMap(h.edges), e);
    var n :| 1 <= n <= |FanMap(h.edges)| && Iterate(FanMap(h.edges), e, n) == e;
    IterateReturns(h.edges, e, e, n, |h.edges|);
  }

  /** A well-formed hull passes all three validators. */
  lemma WellFormedValidated(h: Hull, eps: real)
    requires WellFormed(h, eps)
    ensures HullValid(h, eps)
  {
    forall i | 0 <= i < |h.faceList| ensures FaceValid(h, eps, h.faceList[i]) {
      var f := h.faceList[i];
      assert FaceSound(h, f);
      var c := FaceLoop(h, f).value;
      EdgeLoopShape(h.edges, h.faces[f].edge);
      WellFormedEdgeValid(h, eps, c[0]);
    }
  }
}
