/**
 * The primitive mesh edits of the hull builder: adding a hull vertex, adding a triangle that
 * shares the half-edges already present, and removing a face together with the half-edges that
 * no face uses any more.
 */
module MeshEdit {
  import opened Options
  import opened Geometry
  import opened Sequences
  import opened Mesh

  /** Allocates a vertex at `p`, with no conflict face, and pushes it on the vertex list. */
  function AddVertex(h: Hull, p: Vec3): (r: (Hull, VertexId))
    ensures r.1 !in h.vertices
    ensures r.0.vertices == h.vertices[r.1 := Vertex(p, None)]
    ensures r.0.vertexList == [r.1] + h.vertexList
    ensures r.0.(vertices := h.vertices, vertexList := h.vertexList) == h
    ensures Pending(r.0) == Pending(h)
    ensures Consistent(h) ==> Consistent(r.0)
  {
    var v := FreshId(h.vertices);
    var h' := h.(vertices := h.vertices[v := Vertex(p, None)], vertexList := [v] + h.vertexList);
    assert Pending(h') == Pending(h);
    (h', v)
  }

  // ---------------------------------------------------------------------------------------------
  // Looking up a half-edge that an earlier triangle already created.

  /**
   * `e` can serve as the half-edge from `a` to `b` of a new face: no face owns it yet, it starts
   * at `a` if it starts anywhere, and its twin exists, points back, starts at `b` and is followed
   * on its own boundary by an edge starting at `a`.
   */
  predicate Reusable(h: Hull, e: EdgeId, a: VertexId, b: VertexId) {
    && e in h.edges
    && h.edges[e].face.None?
    && (h.edges[e].tail.None? || h.edges[e].tail == Some(a))
    && h.edges[e].twin.Some?
    && var x := h.edges[e].twin.value;
    && x in h.edges
    && h.edges[x].twin == Some(e)
    && h.edges[x].tail == Some(b)
    && h.edges[x].next.Some?
    && TailOf(h, h.edges[x].next.value) == Some(a)
  }

  function FindInLoop(h: Hull, a: VertexId, b: VertexId, c: seq<EdgeId>): (r: Option<EdgeId>)
    ensures r.Some? ==> Reusable(h, r.value, a, b)
    decreases |c|
  {
    if |c| == 0 then None
    else match TwinOf(h, c[0])
      case Some(e) =>
        if Reusable(h, e, a, b) then Some(e) else FindInLoop(h, a, b, c[1..])
      case None => FindInLoop(h, a, b, c[1..])
  }

  function FindInFaces(h: Hull, a: VertexId, b: VertexId, fs: seq<FaceId>): (r: Option<EdgeId>)
    ensures r.Some? ==> Reusable(h, r.value, a, b)
    decreases |fs|
  {
    if |fs| == 0 then None
    else
      var here := if fs[0] in h.faces then
        match FaceLoop(h, fs[0])
        case Some(c) => FindInLoop(h, a, b, c)
        case None => None
      else None;
      if here.Some? then here else FindInFaces(h, a, b, fs[1..])
  }

  /**
   * The half-edge from `a` to `b` left behind next to a face already on the face list: the twin
   * of a boundary edge running from `b` to `a`, when no face owns that twin yet.
   */
  function FindHalfEdge(h: Hull, a: VertexId, b: VertexId): (r: Option<EdgeId>)
    ensures r.Some? ==> Reusable(h, r.value, a, b)
  {
    FindInFaces(h, a, b, h.faceList)
  }

  // ---------------------------------------------------------------------------------------------
  // Adding a triangle.

  /**
   * How a triangle insertion may change the half-edges: existing edges keep their twin and keep
   * any tail and face they already had; new edges come in fresh pairs that are each other's twin.
   */
  ghost predicate FillsOnlyNull(before: map<EdgeId, HalfEdge>, after: map<EdgeId, HalfEdge>) {
    && before.Keys <= after.Keys
    && (forall x | x in before :: after[x].twin == before[x].twin)
    && (forall x | x in before && before[x].tail.Some? :: after[x].tail == before[x].tail)
    && (forall x | x in before && before[x].face.Some? :: after[x].face == before[x].face)
    && (forall x | x in after && x !in before ::
          && after[x].twin.Some?
          && after[x].twin.value in after
          && after[x].twin.value !in before
          && after[after[x].twin.value].twin == Some(x))
  }

  lemma FillsOnlyNullTransitive(m1: map<EdgeId, HalfEdge>, m2: map<EdgeId, HalfEdge>, m3: map<EdgeId, HalfEdge>)
    requires FillsOnlyNull(m1, m2) && FillsOnlyNull(m2, m3)
    ensures FillsOnlyNull(m1, m3)
  {
  }

  /** Gives a half-edge its tail and face, and its twin its tail, wherever those are still NULL. */
  function Fill(h: Hull, e: EdgeId, f: FaceId, a: VertexId, b: VertexId): (r: Hull)
    requires e in h.edges && h.edges[e].twin.Some? && h.edges[e].twin.value in h.edges
    ensures r == h.(edges := r.edges) && r.edges.Keys == h.edges.Keys
    ensures forall x | x in h.edges ::
      && r.edges[x].twin == h.edges[x].twin
      && r.edges[x].next == h.edges[x].next
      && r.edges[x].prev == h.edges[x].prev
      && (h.edges[x].tail.Some? ==> r.edges[x].tail == h.edges[x].tail)
      && (h.edges[x].face.Some? ==> r.edges[x].face == h.edges[x].face)
    ensures forall x | x in h.edges && x != e :: r.edges[x].face == h.edges[x].face
    ensures r.edges[e].tail.Some? && r.edges[e].face.Some?
    ensures h.edges[e].tail.None? ==> r.edges[e].tail == Some(a)
    ensures h.edges[e].face.None? ==> r.edges[e].face == Some(f)
    ensures h.edges[h.edges[e].twin.value].tail.None? && h.edges[e].twin != Some(e) ==> r.edges[h.edges[e].twin.value].tail == Some(b)
  {
    var he := h.edges[e];
    var tail := if he.tail.None? then Some(a) else he.tail;
    var face := if he.face.None? then Some(f) else he.face;
    var edges1 := h.edges[e := he.(tail := tail, face := face)];
    var t := he.twin.value;
    var te := edges1[t];
    h.(edges := edges1[t := if te.tail.None? then te.(tail := Some(b)) else te])
  }

  /**
   * What one edge insertion leaves behind: `e` runs from `a` to `b` on face `f`, reused edges were
   * `Reusable` (so no face owned them), created ones come in a twin pair with no links yet, and
   * no existing link changes.
   */
  ghost predicate EdgeAttached(h: Hull, r: Hull, e: EdgeId, f: FaceId, a: VertexId, b: VertexId) {
    && r == h.(edges := r.edges)
    && FillsOnlyNull(h.edges, r.edges)
    && e in r.edges && r.edges[e].twin.Some? && r.edges[e].twin.value in r.edges
    && r.edges[r.edges[e].twin.value].twin == Some(e)
    && r.edges[r.edges[e].twin.value].tail == Some(b)
    && r.edges[e].tail == Some(a)
    && r.edges[e].face == Some(f)
    && (forall x | x in h.edges :: r.edges[x].next == h.edges[x].next && r.edges[x].prev == h.edges[x].prev)
    && (e in h.edges ==> Reusable(h, e, a, b))
    && (forall x | x in h.edges && h.edges[x].face.Some? :: x != e)
    && (forall x | x in r.edges && x !in h.edges :: r.edges[x].next.None? && r.edges[x].prev.None?)
    && (forall x | x in r.edges && x !in h.edges && x != e :: r.edges[x].face.None?)
  }

  lemma FoundAttached(h: Hull, e: EdgeId, f: FaceId, a: VertexId, b: VertexId)
    requires Reusable(h, e, a, b)
    ensures EdgeAttached(h, Fill(h, e, f, a, b), e, f, a, b)
  {
  }

  /** A fresh twin pair, allocated with NULL fields and then filled: `e` from `a` on `f`, its twin from `b`. */
  lemma FreshAttached(h: Hull, r: Hull, e: EdgeId, t: EdgeId, f: FaceId, a: VertexId, b: VertexId)
    requires e !in h.edges && t !in h.edges && e != t
    requires r == h.(edges := h.edges[e := HalfEdge(Some(a), Some(f), None, None, Some(t))]
                                     [t := HalfEdge(Some(b), None, None, None, Some(e))])
    ensures EdgeAttached(h, r, e, f, a, b)
  {
  }

  /** The half-edge from `a` to `b` of face `f`: reused when one exists, else a fresh twin pair. */
  function AttachEdge(h: Hull, f: FaceId, a: VertexId, b: VertexId): (r: (Hull, EdgeId))
    ensures EdgeAttached(h, r.0, r.1, f, a, b)
  {
    match FindHalfEdge(h, a, b)
    case Some(e) =>
      FoundAttached(h, e, f, a, b);
      (Fill(h, e, f, a, b), e)
    case None =>
      var e := FreshId(h.edges);
      var t := FreshId(h.edges[e := HalfEdge(None, None, None, None, None)]);
      var r := h.(edges := h.edges[e := HalfEdge(Some(a), Some(f), None, None, Some(t))]
                                 [t := HalfEdge(Some(b), None, None, None, Some(e))]);
      FreshAttached(h, r, e, t, f, a, b);
      (r, e)
  }

  /** Links `e1 -> e2 -> e3 -> e1` through `next`, and the reverse through `prev`. */
  function LinkTriangle(h: Hull, e1: EdgeId, e2: EdgeId, e3: EdgeId): (r: Hull)
    requires e1 in h.edges && e2 in h.edges && e3 in h.edges
    ensures r == h.(edges := r.edges)
    ensures r.edges.Keys == h.edges.Keys
    ensures forall x | x in h.edges ::
      r.edges[x].tail == h.edges[x].tail && r.edges[x].face == h.edges[x].face && r.edges[x].twin == h.edges[x].twin
    ensures forall x | x in h.edges && x != e1 && x != e2 && x != e3 :: r.edges[x] == h.edges[x]
    ensures e1 != e2 && e2 != e3 && e3 != e1 ==>
      && IsLoop(r.edges, [e1, e2, e3])
      && PrevInverse(r.edges, [e1, e2, e3])
  {
    var m1 := h.edges[e1 := h.edges[e1].(prev := Some(e3), next := Some(e2))];
    var m2 := m1[e2 := m1[e2].(prev := Some(e1), next := Some(e3))];
    var m3 := m2[e3 := m2[e3].(prev := Some(e2), next := Some(e1))];
    h.(edges := m3)
  }

  /** What the three `AttachEdge` calls of a triangle leave behind, before linking. */
  ghost predicate Attached(h: Hull, r: Hull, f: FaceId, a: VertexId, b: VertexId, c: VertexId, e1: EdgeId, e2: EdgeId, e3: EdgeId) {
    && r == h.(edges := r.edges)
    && FillsOnlyNull(h.edges, r.edges)
    && e1 in r.edges && e2 in r.edges && e3 in r.edges
    && (forall x | x in h.edges :: r.edges[x].next == h.edges[x].next && r.edges[x].prev == h.edges[x].prev)
    && (forall x | x in h.edges && h.edges[x].face.Some? :: x != e1 && x != e2 && x != e3)
    && TailOf(r, e1) == Some(a) && TailOf(r, e2) == Some(b) && TailOf(r, e3) == Some(c)
    && HeadOf(r, e1) == Some(b) && HeadOf(r, e2) == Some(c) && HeadOf(r, e3) == Some(a)
    && FaceOf(r, e1) == Some(f) && FaceOf(r, e2) == Some(f) && FaceOf(r, e3) == Some(f)
    && (a != b && b != c && c != a ==> e1 != e2 && e2 != e3 && e3 != e1)
  }

  /** A later `AttachEdge` keeps what an earlier one established about a set twin tail. */
  lemma HeadKept(m1: map<EdgeId, HalfEdge>, m2: map<EdgeId, HalfEdge>, e: EdgeId, v: VertexId)
    requires FillsOnlyNull(m1, m2)
    requires e in m1 && m1[e].twin.Some? && m1[e].twin.value in m1 && m1[m1[e].twin.value].tail == Some(v)
    ensures m2[e].twin == m1[e].twin && m2[m2[e].twin.value].tail == Some(v)
  {
  }

  lemma AttachedFrame(h: Hull, h1: Hull, h2: Hull, h3: Hull, f: FaceId, a: VertexId, b: VertexId, c: VertexId, e1: EdgeId, e2: EdgeId, e3: EdgeId)
    requires h1 == AttachEdge(h, f, a, b).0 && e1 == AttachEdge(h, f, a, b).1
    requires h2 == AttachEdge(h1, f, b, c).0 && e2 == AttachEdge(h1, f, b, c).1
    requires h3 == AttachEdge(h2, f, c, a).0 && e3 == AttachEdge(h2, f, c, a).1
    ensures h3 == h.(edges := h3.edges)
    ensures FillsOnlyNull(h.edges, h3.edges)
    ensures e1 in h3.edges && e2 in h3.edges && e3 in h3.edges
    ensures forall x | x in h.edges :: h3.edges[x].next == h.edges[x].next && h3.edges[x].prev == h.edges[x].prev
    ensures forall x | x in h.edges && h.edges[x].face.Some? :: x != e1 && x != e2 && x != e3
  {
    FillsOnlyNullTransitive(h.edges, h1.edges, h2.edges);
    FillsOnlyNullTransitive(h.edges, h2.edges, h3.edges);
  }

  lemma AttachedHeads(h: Hull, h1: Hull, h2: Hull, h3: Hull, f: FaceId, a: VertexId, b: VertexId, c: VertexId, e1: EdgeId, e2: EdgeId, e3: EdgeId)
    requires h1 == AttachEdge(h, f, a, b).0 && e1 == AttachEdge(h, f, a, b).1
    requires h2 == AttachEdge(h1, f, b, c).0 && e2 == AttachEdge(h1, f, b, c).1
    requires h3 == AttachEdge(h2, f, c, a).0 && e3 == AttachEdge(h2, f, c, a).1
    ensures HeadOf(h3, e1) == Some(b) && HeadOf(h3, e2) == Some(c) && HeadOf(h3, e3) == Some(a)
  {
    FillsOnlyNullTransitive(h1.edges, h2.edges, h3.edges);
    HeadKept(h1.edges, h3.edges, e1, b);
    HeadKept(h2.edges, h3.edges, e2, c);
  }

  /** Tails and faces once set stay set, so each edge keeps the start and face its attachment gave it. */
  lemma AttachedTails(h: Hull, h1: Hull, h2: Hull, h3: Hull, f: FaceId, a: VertexId, b: VertexId, c: VertexId, e1: EdgeId, e2: EdgeId, e3: EdgeId)
    requires h1 == AttachEdge(h, f, a, b).0 && e1 == AttachEdge(h, f, a, b).1
    requires h2 == AttachEdge(h1, f, b, c).0 && e2 == AttachEdge(h1, f, b, c).1
    requires h3 == AttachEdge(h2, f, c, a).0 && e3 == AttachEdge(h2, f, c, a).1
    ensures TailOf(h3, e1) == Some(a) && TailOf(h3, e2) == Some(b) && TailOf(h3, e3) == Some(c)
    ensures FaceOf(h3, e1) == Some(f) && FaceOf(h3, e2) == Some(f) && FaceOf(h3, e3) == Some(f)
  {
    FillsOnlyNullTransitive(h1.edges, h2.edges, h3.edges);
  }

  lemma AttachedDistinct(h: Hull, h1: Hull, h2: Hull, h3: Hull, f: FaceId, a: VertexId, b: VertexId, c: VertexId, e1: EdgeId, e2: EdgeId, e3: EdgeId)
    requires h1 == AttachEdge(h, f, a, b).0 && e1 == AttachEdge(h, f, a, b).1
    requires h2 == AttachEdge(h1, f, b, c).0 && e2 == AttachEdge(h1, f, b, c).1
    requires h3 == AttachEdge(h2, f, c, a).0 && e3 == AttachEdge(h2, f, c, a).1
    ensures a != b && b != c && c != a ==> e1 != e2 && e2 != e3 && e3 != e1
  {
    AttachedHeads(h, h1, h2, h3, f, a, b, c, e1, e2, e3);
  }

  lemma AttachedThree(h: Hull, h1: Hull, h2: Hull, h3: Hull, f: FaceId, a: VertexId, b: VertexId, c: VertexId, e1: EdgeId, e2: EdgeId, e3: EdgeId)
    requires h1 == AttachEdge(h, f, a, b).0 && e1 == AttachEdge(h, f, a, b).1
    requires h2 == AttachEdge(h1, f, b, c).0 && e2 == AttachEdge(h1, f, b, c).1
    requires h3 == AttachEdge(h2, f, c, a).0 && e3 == AttachEdge(h2, f, c, a).1
    ensures Attached(h, h3, f, a, b, c, e1, e2, e3)
  {
    AttachedFrame(h, h1, h2, h3, f, a, b, c, e1, e2, e3);
    AttachedHeads(h, h1, h2, h3, f, a, b, c, e1, e2, e3);
    AttachedTails(h, h1, h2, h3, f, a, b, c, e1, e2, e3);
    AttachedDistinct(h, h1, h2, h3, f, a, b, c, e1, e2, e3);
  }

  function AttachTriangle(h: Hull, f: FaceId, a: VertexId, b: VertexId, c: VertexId): (r: (Hull, EdgeId, EdgeId, EdgeId))
    ensures Attached(h, r.0, f, a, b, c, r.1, r.2, r.3)
  {
    var p1 := AttachEdge(h, f, a, b);
    var p2 := AttachEdge(p1.0, f, b, c);
    var p3 := AttachEdge(p2.0, f, c, a);
    AttachedThree(h, p1.0, p2.0, p3.0, f, a, b, c, p1.1, p2.1, p3.1);
    (p3.0, p1.1, p2.1, p3.1)
  }

  /** The three boundary edges of face `f`, read through `next` starting at `f`'s edge. */
  function TriangleEdges(h: Hull, f: FaceId): seq<EdgeId>
    requires f in h.faces
  {
    var e1 := h.faces[f].edge;
    var e2 := NextOf(h, e1).GetOr(e1);
    var e3 := NextOf(h, e2).GetOr(e2);
    [e1, e2, e3]
  }

  /** `t` is the boundary of a triangle of face `f` running a -> b -> c: each edge's tail, head and face. */
  ghost predicate TriangleOf(r: Hull, t: seq<EdgeId>, f: FaceId, a: VertexId, b: VertexId, c: VertexId) {
    && |t| == 3
    && IsLoop(r.edges, t)
    && PrevInverse(r.edges, t)
    && TailOf(r, t[0]) == Some(a) && TailOf(r, t[1]) == Some(b) && TailOf(r, t[2]) == Some(c)
    && HeadOf(r, t[0]) == Some(b) && HeadOf(r, t[1]) == Some(c) && HeadOf(r, t[2]) == Some(a)
    && FaceOf(r, t[0]) == Some(f) && FaceOf(r, t[1]) == Some(f) && FaceOf(r, t[2]) == Some(f)
  }

  /** The state right after the triangle's edges are attached and linked, before the face exists. */
  lemma LinkedTriangle(h: Hull, h3: Hull, f: FaceId, a: VertexId, b: VertexId, c: VertexId, e1: EdgeId, e2: EdgeId, e3: EdgeId)
    requires Attached(h, h3, f, a, b, c, e1, e2, e3)
    ensures a != b && b != c && c != a ==> TriangleOf(LinkTriangle(h3, e1, e2, e3), [e1, e2, e3], f, a, b, c)
  {
  }

  /** Edges some face already owns keep their `next` and `prev`. */
  ghost predicate KeepsFacedLinks(before: map<EdgeId, HalfEdge>, after: map<EdgeId, HalfEdge>) {
    forall x | x in before && before[x].face.Some? :: x in after && after[x].next == before[x].next && after[x].prev == before[x].prev
  }

  lemma KeepsFacedLinksTransitive(m1: map<EdgeId, HalfEdge>, m2: map<EdgeId, HalfEdge>, m3: map<EdgeId, HalfEdge>)
    requires FillsOnlyNull(m1, m2) && KeepsFacedLinks(m1, m2) && KeepsFacedLinks(m2, m3)
    ensures KeepsFacedLinks(m1, m3)
  {
  }

  /** The centroid of a triangle's corners. */
  function TriangleCenter(pa: Vec3, pb: Vec3, pc: Vec3): Vec3 {
    Scale(1.0 / 3.0, Add(Add(pa, pb), pc))
  }

  /**
   * Face `f` of `r` is the triangle `t` over the points `at`: it holds the plane through the
   * three corner positions and their centroid, it is not marked visible, and for distinct
   * corners its boundary, starting at its edge, runs `t.a -> t.b -> t.c`.
   */
  ghost predicate TriangleFace(r: Hull, k: Kernel, f: FaceId, t: Corners, at: map<VertexId, Vertex>) {
    && f in r.faces
    && t.a in at && t.b in at && t.c in at
    && r.faces[f].plane == k.planeFromPoints(at[t.a].position, at[t.b].position, at[t.c].position)
    && r.faces[f].center == TriangleCenter(at[t.a].position, at[t.b].position, at[t.c].position)
    && r.faces[f].mark == Invisible
    && (t.a != t.b && t.b != t.c && t.c != t.a ==> TriangleOf(r, TriangleEdges(r, f), f, t.a, t.b, t.c))
  }

  /**
   * A triangle face stays what it is through any change that leaves its record alone, only fills
   * NULL tails and faces, and relinks no edge a face already owns.
   */
  lemma TriangleFaceKept(m: Hull, r: Hull, k: Kernel, f: FaceId, t: Corners, at: map<VertexId, Vertex>)
    requires TriangleFace(m, k, f, t, at)
    requires f in r.faces && r.faces[f] == m.faces[f]
    requires FillsOnlyNull(m.edges, r.edges) && KeepsFacedLinks(m.edges, r.edges)
    ensures TriangleFace(r, k, f, t, at)
  {
    if t.a != t.b && t.b != t.c && t.c != t.a {
      var c := TriangleEdges(m, f);
      assert m.edges[c[0]].face.Some? && m.edges[c[1]].face.Some? && m.edges[c[2]].face.Some?;
      assert TriangleEdges(r, f) == c;
      HeadKept(m.edges, r.edges, c[0], t.b);
      HeadKept(m.edges, r.edges, c[1], t.c);
      HeadKept(m.edges, r.edges, c[2], t.a);
    }
  }

  /** A triangle face stays what it is over any points that keep its corners at the same positions. */
  lemma TriangleFaceMoved(r: Hull, k: Kernel, f: FaceId, t: Corners, at: map<VertexId, Vertex>, at2: map<VertexId, Vertex>)
    requires TriangleFace(r, k, f, t, at)
    requires at.Keys <= at2.Keys && forall v | v in at :: at2[v].position == at[v].position
    ensures TriangleFace(r, k, f, t, at2)
  {
  }

  /** Refiling conflict points touches neither the edges nor any face record apart from its list. */
  lemma TriangleFaceRelisted(m: Hull, r: Hull, k: Kernel, f: FaceId, t: Corners, at: map<VertexId, Vertex>)
    requires TriangleFace(m, k, f, t, at)
    requires r.edges == m.edges && f in r.faces && r.faces[f] == m.faces[f].(conflictList := r.faces[f].conflictList)
    ensures TriangleFace(r, k, f, t, at)
  {
    assert TriangleEdges(r, f) == TriangleEdges(m, f);
  }

  /** The face record sits in the face map only; nothing about edges or vertices depends on it. */
  lemma FaceInserted(h: Hull, h4: Hull, r: Hull, f: FaceId, face: Face)
    requires f !in h.faces
    requires h4 == h.(edges := h4.edges)
    requires r == h4.(faces := h4.faces[f := face], faceList := [f] + h4.faceList)
    requires face.conflictList == []
    ensures r.faces.Keys == h.faces.Keys + {f}
    ensures forall g | g in h.faces :: r.faces[g] == h.faces[g]
    ensures r.faces[f].conflictList == []
    ensures Pending(r) == Pending(h)
    ensures Consistent(h) ==> Consistent(r)
  {
    assert Pending(r) == Pending(h);
    if Consistent(h) {
      assert Distinct(r.faceList);
    }
  }

  lemma FaceInsertedTriangle(h4: Hull, r: Hull, f: FaceId, face: Face, t: seq<EdgeId>, a: VertexId, b: VertexId, c: VertexId)
    requires r == h4.(faces := h4.faces[f := face], faceList := [f] + h4.faceList)
    requires TriangleOf(h4, t, f, a, b, c) && face.edge == t[0]
    ensures TriangleEdges(r, f) == t
    ensures TriangleOf(r, t, f, a, b, c)
  {
    assert r.edges == h4.edges;
    assert forall e :: HeadOf(r, e) == HeadOf(h4, e) && TailOf(r, e) == TailOf(h4, e) && FaceOf(r, e) == FaceOf(h4, e);
  }

  /** Linking touches only the triangle's edges, none of which a face owned before. */
  lemma LinkedFrame(h: Hull, h3: Hull, h4: Hull, f: FaceId, a: VertexId, b: VertexId, c: VertexId, e1: EdgeId, e2: EdgeId, e3: EdgeId)
    requires Attached(h, h3, f, a, b, c, e1, e2, e3)
    requires h4 == LinkTriangle(h3, e1, e2, e3)
    ensures FillsOnlyNull(h.edges, h4.edges) && KeepsFacedLinks(h.edges, h4.edges)
  {
    FillsOnlyNullTransitive(h.edges, h3.edges, h4.edges);
  }

  /**
   * Adds the triangle (a, b, c) as a new face at the head of the face list. Its three half-edges
   * are reused where an earlier face left one behind and allocated in twin pairs otherwise; only
   * NULL tails and faces are filled in.
   */
  function AddFace(h: Hull, k: Kernel, a: VertexId, b: VertexId, c: VertexId): (r: (Hull, FaceId))
    requires a in h.vertices && b in h.vertices && c in h.vertices
    ensures r.1 !in h.faces
    ensures r.0.faceList == [r.1] + h.faceList
    ensures r.0.faces.Keys == h.faces.Keys + {r.1}
    ensures forall g | g in h.faces :: r.0.faces[g] == h.faces[g]
    ensures r.0.faces[r.1].conflictList == []
    ensures r.0.vertices == h.vertices && r.0.vertexList == h.vertexList
    ensures r.0.tolerance == h.tolerance && r.0.iterations == h.iterations
    ensures FillsOnlyNull(h.edges, r.0.edges) && KeepsFacedLinks(h.edges, r.0.edges)
    ensures Pending(r.0) == Pending(h)
    ensures Consistent(h) ==> Consistent(r.0)
    ensures TriangleFace(r.0, k, r.1, Corners(a, b, c), h.vertices)
  {
    var f := FreshId(h.faces);
    var attached := AttachTriangle(h, f, a, b, c);
    var h3, e1, e2, e3 := attached.0, attached.1, attached.2, attached.3;
    var h4 := LinkTriangle(h3, e1, e2, e3);
    assert h4 == h.(edges := h4.edges);
    LinkedFrame(h, h3, h4, f, a, b, c, e1, e2, e3);
    LinkedTriangle(h, h3, f, a, b, c, e1, e2, e3);
    var pa, pb, pc := h.vertices[a].position, h.vertices[b].position, h.vertices[c].position;
    var face := Face(e1, [], k.planeFromPoints(pa, pb, pc), TriangleCenter(pa, pb, pc), Invisible);
    var r := h4.(faces := h4.faces[f := face], faceList := [f] + h4.faceList);
    FaceInserted(h, h4, r, f, face);
    if a != b && b != c && c != a then
      FaceInsertedTriangle(h4, r, f, face, [e1, e2, e3], a, b, c);
      (r, f)
    else (r, f)
  }

  /** `r` keeps the conflict graph of `h`: the same pending points, consistency carried over, the same scalars. */
  ghost predicate ConflictsKept(h: Hull, r: Hull) {
    && Pending(r) == Pending(h)
    && (Consistent(h) ==> Consistent(r))
    && r.tolerance == h.tolerance && r.iterations == h.iterations
  }

  /**
   * The faces of `r` are those of `h` and the faces `fs`, in that order of addition: each fresh,
   * pushed on the face list and with an empty conflict list, the old faces untouched.
   */
  ghost predicate FacesAdded(h: Hull, r: Hull, fs: seq<FaceId>) {
    && Distinct(fs)
    && (forall i | 0 <= i < |fs| :: fs[i] !in h.faces && fs[i] in r.faces && r.faces[fs[i]].conflictList == [])
    && (forall g :: g in r.faces <==> g in h.faces || g in fs)
    && r.faceList == Reverse(fs) + h.faceList
    && (forall g | g in h.faces :: r.faces[g] == h.faces[g])
  }

  /** The corners of a triangle to add, in winding order. */
  datatype Corners = Corners(a: VertexId, b: VertexId, c: VertexId)

  /** Every corner of every triangle of `ts` is an allocated vertex. */
  predicate CornersIn(vertices: map<VertexId, Vertex>, ts: seq<Corners>) {
    forall t | t in ts :: t.a in vertices && t.b in vertices && t.c in vertices
  }

  /**
   * Adds the triangles of `ts` in order, each with `AddFace`; the new faces come out in the order
   * added, and each is still the triangle it was made from once all are in.
   */
  function AddFaces(h: Hull, k: Kernel, ts: seq<Corners>): (r: (Hull, seq<FaceId>))
    requires CornersIn(h.vertices, ts)
    ensures |r.1| == |ts|
    ensures FacesAdded(h, r.0, r.1)
    ensures r.0.vertices == h.vertices && r.0.vertexList == h.vertexList
    ensures ConflictsKept(h, r.0)
    ensures FillsOnlyNull(h.edges, r.0.edges) && KeepsFacedLinks(h.edges, r.0.edges)
    ensures forall i | 0 <= i < |ts| :: TriangleFace(r.0, k, r.1[i], ts[i], h.vertices)
    decreases |ts|
  {
    if |ts| == 0 then (h, [])
    else
      var first := AddFace(h, k, ts[0].a, ts[0].b, ts[0].c);
      var rest := AddFaces(first.0, k, ts[1..]);
      FacesAddedStep(h, first.0, rest.0, first.1, rest.1);
      TrianglesAddedStep(h, k, ts, first.0, first.1, rest.0, rest.1);
      (rest.0, [first.1] + rest.1)
  }

  /** The first triangle survives the rest being added, and the rest are triangles over the same points. */
  lemma TrianglesAddedStep(h: Hull, k: Kernel, ts: seq<Corners>, h1: Hull, f: FaceId, r: Hull, fs: seq<FaceId>)
    requires |ts| > 0 && |fs| == |ts| - 1 && h1.vertices == h.vertices
    requires TriangleFace(h1, k, f, ts[0], h.vertices)
    requires FillsOnlyNull(h.edges, h1.edges) && KeepsFacedLinks(h.edges, h1.edges)
    requires FacesAdded(h1, r, fs)
    requires FillsOnlyNull(h1.edges, r.edges) && KeepsFacedLinks(h1.edges, r.edges)
    requires forall i | 0 <= i < |fs| :: TriangleFace(r, k, fs[i], ts[1..][i], h1.vertices)
    ensures FillsOnlyNull(h.edges, r.edges) && KeepsFacedLinks(h.edges, r.edges)
    ensures forall i | 0 <= i < |ts| :: TriangleFace(r, k, ([f] + fs)[i], ts[i], h.vertices)
  {
    FillsOnlyNullTransitive(h.edges, h1.edges, r.edges);
    KeepsFacedLinksTransitive(h.edges, h1.edges, r.edges);
    TriangleFaceKept(h1, r, k, f, ts[0], h.vertices);
    forall i | 0 < i < |ts| ensures TriangleFace(r, k, ([f] + fs)[i], ts[i], h.vertices) {
      assert ([f] + fs)[i] == fs[i - 1] && ts[1..][i - 1] == ts[i];
    }
  }

  lemma FacesAddedStep(h: Hull, h1: Hull, r: Hull, f: FaceId, fs: seq<FaceId>)
    requires f !in h.faces && h1.faceList == [f] + h.faceList
    requires h1.faces.Keys == h.faces.Keys + {f}
    requires forall g | g in h.faces :: h1.faces[g] == h.faces[g]
    requires h1.faces[f].conflictList == []
    requires FacesAdded(h1, r, fs)
    ensures FacesAdded(h, r, [f] + fs)
  {
    var out := [f] + fs;
    forall i, j | 0 <= i < j < |out| ensures out[i] != out[j] {
      if i == 0 {
        assert out[j] == fs[j - 1];
      } else {
        assert out[i] == fs[i - 1] && out[j] == fs[j - 1];
      }
    }
    forall i | 0 <= i < |out|
      ensures out[i] !in h.faces && out[i] in r.faces && r.faces[out[i]].conflictList == []
    {
      if i > 0 {
        assert out[i] == fs[i - 1];
      }
    }
    assert Reverse(out) == Reverse(fs) + [f];
  }

  /**
   * The vertices of `r` are those of `h` and the fresh points `vs` at the positions `qs`, with no
   * conflict face, pushed on the vertex list in that order; the old vertices untouched.
   */
  ghost predicate VerticesAdded(h: Hull, r: Hull, vs: seq<VertexId>, qs: seq<Vec3>) {
    && |vs| == |qs| && Distinct(vs)
    && (forall i | 0 <= i < |vs| :: vs[i] !in h.vertices && vs[i] in r.vertices && r.vertices[vs[i]] == Vertex(qs[i], None))
    && (forall v :: v in r.vertices <==> v in h.vertices || v in vs)
    && r.vertexList == Reverse(vs) + h.vertexList
    && (forall v | v in h.vertices :: r.vertices[v] == h.vertices[v])
  }

  /** Adds a hull vertex at each point of `qs` in order, each with `AddVertex`. */
  function AddVertices(h: Hull, qs: seq<Vec3>): (r: (Hull, seq<VertexId>))
    ensures VerticesAdded(h, r.0, r.1, qs)
    ensures r.0.faces == h.faces && r.0.faceList == h.faceList && r.0.edges == h.edges
    ensures ConflictsKept(h, r.0)
    decreases |qs|
  {
    if |qs| == 0 then (h, [])
    else
      var first := AddVertex(h, qs[0]);
      var h1, v := first.0, first.1;
      var rest := AddVertices(h1, qs[1..]);
      var r, vs := rest.0, rest.1;
      VerticesAddedStep(h, h1, r, v, vs, qs);
      (r, [v] + vs)
  }

  lemma VerticesAddedStep(h: Hull, h1: Hull, r: Hull, v: VertexId, vs: seq<VertexId>, qs: seq<Vec3>)
    requires |qs| > 0 && v !in h.vertices
    requires h1.vertices == h.vertices[v := Vertex(qs[0], None)] && h1.vertexList == [v] + h.vertexList
    requires VerticesAdded(h1, r, vs, qs[1..])
    ensures VerticesAdded(h, r, [v] + vs, qs)
  {
    var out := [v] + vs;
    forall i, j | 0 <= i < j < |out| ensures out[i] != out[j] {
      if i == 0 {
        assert out[j] == vs[j - 1];
      } else {
        assert out[i] == vs[i - 1] && out[j] == vs[j - 1];
      }
    }
    forall i | 0 <= i < |out|
      ensures out[i] !in h.vertices && out[i] in r.vertices && r.vertices[out[i]] == Vertex(qs[i], None)
    {
      if i > 0 {
        assert out[i] == vs[i - 1] && qs[1..][i - 1] == qs[i];
      }
    }
    assert Reverse(out) == Reverse(vs) + [v];
  }

  // ---------------------------------------------------------------------------------------------
  // Removing a face.

  /**
   * Detaches one boundary edge of a face being removed. When the face across the edge is NULL the
   * edge and its twin both go back to the pool; otherwise only the edge's tail, face and links are
   * cleared and the twin keeps pointing at it. A missing edge or twin leaves the map unchanged.
   */
  function Detach(edges: map<EdgeId, HalfEdge>, e: EdgeId): map<EdgeId, HalfEdge> {
    if e !in edges || edges[e].twin.None? || edges[e].twin.value !in edges then edges
    else
      var t := edges[e].twin.value;
      if edges[t].face.None? then edges - {e, t}
      else edges[e := HalfEdge(None, None, None, None, Some(t))]
  }

  /** Detaches the edges of `c` one after another, reading each twin after the earlier updates. */
  function DetachAll(edges: map<EdgeId, HalfEdge>, c: seq<EdgeId>): map<EdgeId, HalfEdge>
    decreases |c|
  {
    if |c| == 0 then edges else DetachAll(Detach(edges, c[0]), c[1..])
  }

  /** Every edge of `c` exists and has a twin that points back and is not itself on `c`. */
  ghost predicate TwinsOff(edges: map<EdgeId, HalfEdge>, c: seq<EdgeId>) {
    forall i | 0 <= i < |c| ::
      && c[i] in edges
      && edges[c[i]].twin.Some?
      && edges[c[i]].twin.value in edges
      && edges[c[i]].twin.value !in c
      && edges[edges[c[i]].twin.value].twin == Some(c[i])
  }

  /** The outcome `DetachAll` promises for edge `e` of the loop, whose twin is `t` in `before`. */
  ghost predicate Detached(before: map<EdgeId, HalfEdge>, after: map<EdgeId, HalfEdge>, e: EdgeId, t: EdgeId) {
    && t in before
    && if before[t].face.None? then e !in after && t !in after
    else
      && e in after && after[e] == HalfEdge(None, None, None, None, Some(t))
      && t in after && after[t] == before[t]
  }

  lemma {:induction false} DetachAllEffect(edges: map<EdgeId, HalfEdge>, c: seq<EdgeId>)
    requires Distinct(c) && TwinsOff(edges, c)
    ensures var r := DetachAll(edges, c);
      && r.Keys <= edges.Keys
      && (forall i | 0 <= i < |c| :: Detached(edges, r, c[i], edges[c[i]].twin.value))
      && (forall x | x in edges && x !in c && (forall i | 0 <= i < |c| :: edges[c[i]].twin != Some(x)) ::
            x in r && r[x] == edges[x])
    decreases |c|
  {
    if |c| > 0 {
      var e := c[0];
      var t := edges[e].twin.value;
      var d := Detach(edges, e);
      DistinctTail(c);
      assert TwinsOff(d, c[1..]) by {
        forall i | 0 <= i < |c[1..]|
          ensures c[1..][i] in d && d[c[1..][i]] == edges[c[1..][i]]
        {
          var x := c[1..][i];
          assert x == c[i + 1];
          assert x != t;
        }
        forall i | 0 <= i < |c[1..]|
          ensures var y := edges[c[1..][i]].twin.value; y in d && d[y] == edges[y]
        {
          var y := edges[c[i + 1]].twin.value;
          assert y != e && c[i + 1] != e;
          assert y != t;
        }
      }
      DetachAllEffect(d, c[1..]);
      var r := DetachAll(edges, c);
      assert r == DetachAll(d, c[1..]);
      forall i | 0 <= i < |c| ensures Detached(edges, r, c[i], edges[c[i]].twin.value) {
        if i > 0 {
          var y := edges[c[i]].twin.value;
          assert c[1..][i - 1] == c[i];
          assert d[c[i]] == edges[c[i]] && d[y] == edges[y];
        }
      }
      forall x | x in edges && x !in c && (forall i | 0 <= i < |c| :: edges[c[i]].twin != Some(x))
        ensures x in r && r[x] == edges[x]
      {
        assert edges[c[0]].twin != Some(x);
        assert x in d && d[x] == edges[x];
        forall i | 0 <= i < |c[1..]| ensures d[c[1..][i]].twin != Some(x) {
          assert edges[c[i + 1]].twin != Some(x);
        }
      }
    }
  }

  /** The element after the first `x` in `s`, if any. */
  function NextInList<T(==)>(s: seq<T>, x: T): (r: Option<T>)
    ensures r.Some? ==> exists i | 0 <= i < |s| - 1 :: s[i] == x && s[i + 1] == r.value
    decreases |s|
  {
    if |s| < 2 then None
    else if s[0] == x then Some(s[1])
    else NextInList(s[1..], x)
  }

  /** `i` is the first position of `x` in `s`. */
  predicate FirstAt<T(==)>(s: seq<T>, x: T, i: int) {
    0 <= i < |s| && s[i] == x && forall j | 0 <= j < i :: s[j] != x
  }

  /**
   * `NextInList` gives nothing exactly when `x` does not occur before the last position, and
   * otherwise the element right after its first occurrence.
   */
  lemma {:induction false} NextInListFirst<T>(s: seq<T>, x: T)
    ensures NextInList(s, x).None? <==> forall i | 0 <= i < |s| - 1 :: s[i] != x
    ensures NextInList(s, x).Some? ==> exists i | 0 <= i < |s| - 1 :: FirstAt(s, x, i) && s[i + 1] == NextInList(s, x).value
    decreases |s|
  {
    if |s| >= 2 {
      if s[0] == x {
        assert FirstAt(s, x, 0);
      } else {
        NextInListFirst(s[1..], x);
        assert forall i | 0 < i < |s| :: s[i] == s[1..][i - 1];
        if NextInList(s, x).Some? {
          var i :| 0 <= i < |s[1..]| - 1 && FirstAt(s[1..], x, i) && s[1..][i + 1] == NextInList(s, x).value;
          assert FirstAt(s, x, i + 1);
        }
      }
    }
  }

  /**
   * Removes face `f`: each boundary edge is detached as `Detach` describes, then the face leaves
   * the face list and the pool. The result also carries the face that followed `f` on the list.
   * Where `qhHull`'s do-while loop would follow a NULL pointer (a boundary that does not
   * close, an edge without a twin) the model detaches nothing for that edge or face.
   */
  function RemoveFace(h: Hull, f: FaceId): (r: (Hull, Option<FaceId>))
    requires f in h.faces
    ensures r.0.faces == h.faces - {f}
    ensures r.0.faceList == Without(h.faceList, f)
    ensures r.0.vertices == h.vertices && r.0.vertexList == h.vertexList
    ensures r.0.tolerance == h.tolerance && r.0.iterations == h.iterations
    ensures r.0.edges.Keys <= h.edges.Keys
    ensures r.1 == NextInList(h.faceList, f)
    ensures Pending(r.0) == Pending(h)
    ensures Consistent(h) && h.faces[f].conflictList == [] ==> Consistent(r.0)
    ensures FaceLoop(h, f).Some? ==>
      var c := FaceLoop(h, f).value;
      Distinct(c) && TwinsOff(h.edges, c) ==>
        && (forall i | 0 <= i < |c| :: Detached(h.edges, r.0.edges, c[i], h.edges[c[i]].twin.value))
        && (forall x | x in h.edges && x !in c && (forall i | 0 <= i < |c| :: h.edges[c[i]].twin != Some(x)) ::
              x in r.0.edges && r.0.edges[x] == h.edges[x])
  {
    var c := FaceLoop(h, f).GetOr([]);
    var r := h.(edges := DetachAll(h.edges, c), faces := h.faces - {f}, faceList := Without(h.faceList, f));
    RemovedFace(h, r, f);
    DetachLoop(h.edges, c);
    (r, NextInList(h.faceList, f))
  }

  lemma DetachLoop(edges: map<EdgeId, HalfEdge>, c: seq<EdgeId>)
    ensures DetachAll(edges, c).Keys <= edges.Keys
    ensures Distinct(c) && TwinsOff(edges, c) ==>
      var r := DetachAll(edges, c);
      && (forall i | 0 <= i < |c| :: Detached(edges, r, c[i], edges[c[i]].twin.value))
      && (forall x | x in edges && x !in c && (forall i | 0 <= i < |c| :: edges[c[i]].twin != Some(x)) ::
            x in r && r[x] == edges[x])
  {
    DetachAllKeys(edges, c);
    if Distinct(c) && TwinsOff(edges, c) {
      DetachAllEffect(edges, c);
    }
  }

  lemma {:induction false} DetachAllKeys(edges: map<EdgeId, HalfEdge>, c: seq<EdgeId>)
    ensures DetachAll(edges, c).Keys <= edges.Keys
    decreases |c|
  {
    if |c| > 0 {
      DetachAllKeys(Detach(edges, c[0]), c[1..]);
    }
  }

  /** Dropping an empty-listed face keeps the conflict graph consistent and the pending set. */
  lemma RemovedFace(h: Hull, r: Hull, f: FaceId)
    requires f in h.faces
    requires r == h.(edges := r.edges, faces := h.faces - {f}, faceList := Without(h.faceList, f))
    ensures Pending(r) == Pending(h)
    ensures Consistent(h) && h.faces[f].conflictList == [] ==> Consistent(r)
  {
    assert Pending(r) == Pending(h);
    if Consistent(h) && h.faces[f].conflictList == [] {
      WithoutDistinct(h.faceList, f);
      forall v | v in r.vertices && r.vertices[v].conflictFace.Some?
        ensures r.vertices[v].conflictFace.value in r.faces
      {
        assert v in h.faces[h.vertices[v].conflictFace.value].conflictList;
      }
      forall i | 0 <= i < |r.faceList| ensures r.faceList[i] in r.faces {
        assert r.faceList[i] in h.faceList;
      }
    }
  }
}
