/**
 * The half-edge mesh of the hull builder as immutable maps from integer ids to records.
 * An element is active exactly when its id is a key of the corresponding map; freeing an
 * element removes its key and allocating one takes the lowest unused id, as the free-list
 * pools do. Pointer fields that the builder sets to NULL at some point are `Option`s.
 */
module Mesh {
  import opened Options
  import opened Geometry
  import opened Sequences

  type VertexId = nat
  type EdgeId = nat
  type FaceId = nat

  datatype Mark = Visible | Invisible

  /** A point: a hull vertex (no conflict face) or an outside point waiting in a face's conflict list. */
  datatype Vertex = Vertex(position: Vec3, conflictFace: Option<FaceId>)

  datatype HalfEdge = HalfEdge(
    tail: Option<VertexId>,
    face: Option<FaceId>,
    prev: Option<EdgeId>,
    next: Option<EdgeId>,
    twin: Option<EdgeId>)

  /** `edge` is one half-edge of the face's boundary; the conflict list is kept head first. */
  datatype Face = Face(edge: EdgeId, conflictList: seq<VertexId>, plane: Plane, center: Vec3, mark: Mark)

  /** The builder's state: the three pools, the active vertex and face lists (head first) and the tolerance. */
  datatype Hull = Hull(
    vertices: map<VertexId, Vertex>,
    edges: map<EdgeId, HalfEdge>,
    faces: map<FaceId, Face>,
    vertexList: seq<VertexId>,
    faceList: seq<FaceId>,
    tolerance: real,
    iterations: nat)

  /** The state `Construct` starts from: every pool free, both lists empty. */
  const EmptyHull: Hull := Hull(map[], map[], map[], [], [], 0.0, 0)

  // ---------------------------------------------------------------------------------------------
  // Pointer reads that tolerate a missing record (they read as NULL).

  function TailOf(h: Hull, e: EdgeId): Option<VertexId> {
    if e in h.edges then h.edges[e].tail else None
  }

  function TwinOf(h: Hull, e: EdgeId): Option<EdgeId> {
    if e in h.edges then h.edges[e].twin else None
  }

  function NextOf(h: Hull, e: EdgeId): Option<EdgeId> {
    if e in h.edges then h.edges[e].next else None
  }

  function FaceOf(h: Hull, e: EdgeId): Option<FaceId> {
    if e in h.edges then h.edges[e].face else None
  }

  /** The tail of an edge's twin, i.e. the vertex the edge points to. */
  function HeadOf(h: Hull, e: EdgeId): Option<VertexId> {
    match TwinOf(h, e)
    case None => None
    case Some(t) => TailOf(h, t)
  }

  /** The face on the other side of `e`, when the twin and its face exist. */
  function TwinFaceOf(h: Hull, e: EdgeId): Option<FaceId> {
    match TwinOf(h, e)
    case None => None
    case Some(t) => if FaceOf(h, t).Some? && FaceOf(h, t).value in h.faces then FaceOf(h, t) else None
  }

  function PositionOf(h: Hull, v: VertexId): Vec3 {
    if v in h.vertices then h.vertices[v].position else Zero
  }

  // ---------------------------------------------------------------------------------------------
  // Boundary loops: the do-while walks over `next` that the builder uses to visit a face.

  /**
   * The edges met walking `next` from `cur` until the walk comes back to `start`; None when it
   * reaches a missing edge or pointer, or does not come back within `fuel` steps.
   */
  function WalkFrom(edges: map<EdgeId, HalfEdge>, start: EdgeId, cur: EdgeId, fuel: nat): Option<seq<EdgeId>>
    decreases fuel
  {
    if fuel == 0 || cur !in edges then None
    else
      match edges[cur].next
      case None => None
      case Some(n) =>
        if n == start then Some([cur])
        else
          match WalkFrom(edges, start, n, fuel - 1)
          case None => None
          case Some(rest) => Some([cur] + rest)
  }

  /** The loop through `start`; no simple loop is longer than the number of edges. */
  function EdgeLoop(edges: map<EdgeId, HalfEdge>, start: EdgeId): Option<seq<EdgeId>> {
    WalkFrom(edges, start, start, |edges|)
  }

  function FaceLoop(h: Hull, f: FaceId): Option<seq<EdgeId>>
    requires f in h.faces
  {
    EdgeLoop(h.edges, h.faces[f].edge)
  }

  /** `c` is a simple closed `next`-cycle of existing edges. */
  ghost predicate IsLoop(edges: map<EdgeId, HalfEdge>, c: seq<EdgeId>) {
    && |c| > 0
    && Distinct(c)
    && (forall i | 0 <= i < |c| :: c[i] in edges)
    && (forall i | 0 <= i < |c| - 1 :: edges[c[i]].next == Some(c[i + 1]))
    && edges[c[|c| - 1]].next == Some(c[0])
  }

  /** `prev` runs the loop `c` backwards. */
  ghost predicate PrevInverse(edges: map<EdgeId, HalfEdge>, c: seq<EdgeId>)
    requires IsLoop(edges, c)
  {
    && (forall i | 0 < i < |c| :: edges[c[i]].prev == Some(c[i - 1]))
    && edges[c[0]].prev == Some(c[|c| - 1])
  }

  lemma {:induction false} WalkFromLoop(edges: map<EdgeId, HalfEdge>, c: seq<EdgeId>, i: nat, fuel: nat)
    requires IsLoop(edges, c)
    requires i < |c| && fuel >= |c| - i
    ensures WalkFrom(edges, c[0], c[i], fuel) == Some(c[i..])
    decreases |c| - i
  {
    if i == |c| - 1 {
      assert c[i..] == [c[i]];
    } else {
      assert c[i + 1] != c[0];
      WalkFromLoop(edges, c, i + 1, fuel - 1);
      assert c[i..] == [c[i]] + c[i + 1..];
    }
  }

  /** Walking a simple loop from its first edge yields exactly that loop. */
  lemma LoopWalk(edges: map<EdgeId, HalfEdge>, c: seq<EdgeId>)
    requires IsLoop(edges, c)
    ensures EdgeLoop(edges, c[0]) == Some(c)
  {
    DistinctKeysBound(c, edges);
    WalkFromLoop(edges, c, 0, |edges|);
    assert c[0..] == c;
  }

  lemma {:induction false} WalkFromShape(edges: map<EdgeId, HalfEdge>, start: EdgeId, cur: EdgeId, fuel: nat)
    requires WalkFrom(edges, start, cur, fuel).Some?
    ensures var c := WalkFrom(edges, start, cur, fuel).value;
      && |c| > 0 && c[0] == cur
      && (forall i | 0 <= i < |c| :: c[i] in edges)
      && (forall i | 0 <= i < |c| - 1 :: edges[c[i]].next == Some(c[i + 1]))
      && edges[c[|c| - 1]].next == Some(start)
    decreases fuel
  {
    var n := edges[cur].next.value;
    if n != start {
      WalkFromShape(edges, start, n, fuel - 1);
    }
  }

  /** What a successful walk guarantees: it starts at `start`, follows `next`, and closes. */
  lemma EdgeLoopShape(edges: map<EdgeId, HalfEdge>, start: EdgeId)
    requires EdgeLoop(edges, start).Some?
    ensures var c := EdgeLoop(edges, start).value;
      && |c| > 0 && c[0] == start
      && (forall i | 0 <= i < |c| :: c[i] in edges)
      && (forall i | 0 <= i < |c| - 1 :: edges[c[i]].next == Some(c[i + 1]))
      && edges[c[|c| - 1]].next == Some(c[0])
  {
    WalkFromShape(edges, start, start, |edges|);
  }

  // ---------------------------------------------------------------------------------------------
  // The conflict graph and the two active lists.

  /** Outside points still waiting to be processed: allocated vertices that name a conflict face. */
  function Pending(h: Hull): set<VertexId> {
    set v | v in h.vertices && h.vertices[v].conflictFace.Some?
  }

  /** The face list holds each active face exactly once and nothing else. */
  ghost predicate FacesListed(h: Hull) {
    && Distinct(h.faceList)
    && (forall i | 0 <= i < |h.faceList| :: h.faceList[i] in h.faces)
    && (forall f | f in h.faces :: f in h.faceList)
  }

  /** Every face reachable from the face list, and every vertex on its conflict list, is allocated. */
  ghost predicate Addressable(h: Hull) {
    forall i | 0 <= i < |h.faceList| ::
      && h.faceList[i] in h.faces
      && forall j | 0 <= j < |h.faces[h.faceList[i]].conflictList| ::
           h.faces[h.faceList[i]].conflictList[j] in h.vertices
  }

  /**
   * The conflict graph agrees with itself: each conflict list is duplicate-free and its members
   * point back to the face; every vertex that names a conflict face is on that face's list; the
   * hull vertices are allocated, distinct and on no list.
   */
  ghost predicate Consistent(h: Hull) {
    && FacesListed(h)
    && (forall f | f in h.faces :: Distinct(h.faces[f].conflictList))
    && (forall f, j | f in h.faces && 0 <= j < |h.faces[f].conflictList| ::
          && h.faces[f].conflictList[j] in h.vertices
          && h.vertices[h.faces[f].conflictList[j]].conflictFace == Some(f))
    && (forall v | v in h.vertices && h.vertices[v].conflictFace.Some? ::
          && h.vertices[v].conflictFace.value in h.faces
          && v in h.faces[h.vertices[v].conflictFace.value].conflictList)
    && Distinct(h.vertexList)
    && (forall i | 0 <= i < |h.vertexList| ::
          h.vertexList[i] in h.vertices && h.vertices[h.vertexList[i]].conflictFace.None?)
  }

  lemma ConsistentAddressable(h: Hull)
    requires Consistent(h)
    ensures Addressable(h)
  {
  }

  /** Under `Consistent`, the pending points are exactly the members of the conflict lists. */
  lemma PendingIsConflictLists(h: Hull)
    requires Consistent(h)
    ensures forall v :: v in Pending(h) <==> exists f :: f in h.faces && v in h.faces[f].conflictList
  {
  }

  /** Edits that leave the vertices, the lists and every conflict list alone keep the conflict graph. */
  lemma ConflictsUnchanged(h: Hull, r: Hull)
    requires r.vertices == h.vertices && r.vertexList == h.vertexList && r.faceList == h.faceList
    requires r.faces.Keys == h.faces.Keys
    requires forall f | f in h.faces :: r.faces[f].conflictList == h.faces[f].conflictList
    ensures Pending(r) == Pending(h)
    ensures Consistent(h) ==> Consistent(r)
  {
  }
}
