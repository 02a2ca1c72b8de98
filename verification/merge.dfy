/**
 * Face merging: removing the edge between two faces so that the face on the left is absorbed by
 * the face on the right, and the loops that repeat this while a face has a neighbour that is not
 * strictly convex against it.
 */
module Merge {
  import opened Options
  import opened Geometry
  import opened Sequences
  import opened Mesh
  import opened MeshEdit

  // ---------------------------------------------------------------------------------------------
  // Recomputing a face's plane.

  /** Position of the tail of `e`; a missing edge, tail or vertex reads as the origin. */
  function TailPosition(h: Hull, e: EdgeId): Vec3 {
    match TailOf(h, e)
    case None => Zero
    case Some(v) => PositionOf(h, v)
  }

  function LoopPositions(h: Hull, c: seq<EdgeId>): (ps: seq<Vec3>)
    ensures |ps| == |c|
    ensures forall i | 0 <= i < |c| :: ps[i] == TailPosition(h, c[i])
  {
    seq(|c|, i requires 0 <= i < |c| => TailPosition(h, c[i]))
  }

  /**
   * Stores in face `f` the plane and center of the polygon traced by its boundary: the centroid
   * of the tails and the normalised Newell normal. A boundary that does not close leaves the face
   * as it was.
   */
  function ComputePlane(h: Hull, k: Kernel, f: FaceId): (r: Hull)
    requires f in h.faces
    ensures r.faces.Keys == h.faces.Keys
    ensures r == h.(faces := r.faces)
    ensures forall g | g in h.faces && g != f :: r.faces[g] == h.faces[g]
    ensures r.faces[f] == h.faces[f].(plane := r.faces[f].plane, center := r.faces[f].center)
    ensures FaceLoop(h, f).Some? ==>
      && r.faces[f].center == Centroid(LoopPositions(h, FaceLoop(h, f).value))
      && r.faces[f].plane.normal == k.normalize(NewellSum(LoopPositions(h, FaceLoop(h, f).value)))
      && Distance(r.faces[f].center, r.faces[f].plane) == 0.0
  {
    match FaceLoop(h, f)
    case None => h
    case Some(c) =>
      EdgeLoopShape(h.edges, h.faces[f].edge);
      var pc := PolygonPlane(k, LoopPositions(h, c));
      h.(faces := h.faces[f := h.faces[f].(plane := pc.0, center := pc.1)])
  }

  lemma ComputePlaneKeeps(h: Hull, k: Kernel, f: FaceId)
    requires f in h.faces
    ensures Pending(ComputePlane(h, k, f)) == Pending(h)
    ensures Consistent(h) ==> Consistent(ComputePlane(h, k, f))
  {
    ConflictsUnchanged(h, ComputePlane(h, k, f));
  }

  // ---------------------------------------------------------------------------------------------
  // Removing one edge.

  /**
   * What `RemoveEdge(e)` dereferences without a check: `e` and its twin, both faces (which must
   * differ, or moving the conflict list would never end), the four neighbouring links, and a
   * left boundary that closes.
   */
  predicate CanRemove(h: Hull, e: EdgeId) {
    && e in h.edges
    && h.edges[e].twin.Some? && h.edges[e].twin.value in h.edges
    && h.edges[e].face.Some? && h.edges[e].face.value in h.faces
    && var t := h.edges[e].twin.value;
    && t != e
    && h.edges[t].face.Some? && h.edges[t].face.value in h.faces
    && h.edges[t].face != h.edges[e].face
    && h.edges[e].prev.Some? && h.edges[e].next.Some?
    && h.edges[t].prev.Some? && h.edges[t].next.Some?
    && EdgeLoop(h.edges, t).Some?
  }

  /**
   * Empties the conflict list of `left` into `right` one head at a time, so the moved points end
   * up reversed in front of `right`'s own, each now naming `right`.
   */
  function MoveConflicts(h: Hull, left: FaceId, right: FaceId): (r: Hull)
    requires left in h.faces && right in h.faces && left != right
    ensures r == h.(vertices := r.vertices, faces := r.faces)
  {
    var l := h.faces[left].conflictList;
    var vs := map v | v in h.vertices ::
      if v in l then h.vertices[v].(conflictFace := Some(right)) else h.vertices[v];
    var fs := h.faces[right := h.faces[right].(conflictList := Reverse(l) + h.faces[right].conflictList)]
                     [left := h.faces[left].(conflictList := [])];
    h.(vertices := vs, faces := fs)
  }

  lemma MoveConflictsEffect(h: Hull, left: FaceId, right: FaceId)
    requires left in h.faces && right in h.faces && left != right
    ensures var r := MoveConflicts(h, left, right);
      && r.vertices.Keys == h.vertices.Keys
      && r.faces.Keys == h.faces.Keys
      && r.faces[right] == h.faces[right].(conflictList := Reverse(h.faces[left].conflictList) + h.faces[right].conflictList)
      && r.faces[left] == h.faces[left].(conflictList := [])
      && (forall g | g in h.faces && g != left && g != right :: r.faces[g] == h.faces[g])
      && (forall v | v in h.vertices && v in h.faces[left].conflictList ::
            r.vertices[v] == h.vertices[v].(conflictFace := Some(right)))
      && (forall v | v in h.vertices && v !in h.faces[left].conflictList :: r.vertices[v] == h.vertices[v])
  {
  }

  /** Under `Consistent`, the two conflict lists are disjoint: each point names a single face. */
  lemma ConflictListsDisjoint(h: Hull, f: FaceId, g: FaceId, v: VertexId)
    requires Consistent(h) && f in h.faces && g in h.faces && f != g
    requires v in h.faces[f].conflictList
    ensures v !in h.faces[g].conflictList
  {
    var i :| 0 <= i < |h.faces[f].conflictList| && h.faces[f].conflictList[i] == v;
    assert h.vertices[v].conflictFace == Some(f);
  }

  lemma DistinctConcat<T>(a: seq<T>, b: seq<T>)
    requires Distinct(a) && Distinct(b)
    requires forall x | x in a :: x !in b
    ensures Distinct(a + b)
  {
    forall i, j | 0 <= i < j < |a + b| ensures (a + b)[i] != (a + b)[j] {
      if j >= |a| && i < |a| {
        assert (a + b)[i] in a && (a + b)[j] in b;
      }
    }
  }

  /** `r` is `h` with the conflict list of `left` moved, reversed, in front of that of `right`. */
  ghost predicate Moved(h: Hull, left: FaceId, right: FaceId, r: Hull)
    requires left in h.faces && right in h.faces
  {
    && r == h.(vertices := r.vertices, faces := r.faces)
    && r.vertices.Keys == h.vertices.Keys
    && r.faces.Keys == h.faces.Keys
    && r.faces[right] == h.faces[right].(conflictList := Reverse(h.faces[left].conflictList) + h.faces[right].conflictList)
    && r.faces[left] == h.faces[left].(conflictList := [])
    && (forall g | g in h.faces && g != left && g != right :: r.faces[g] == h.faces[g])
    && (forall v | v in h.vertices && v in h.faces[left].conflictList ::
          r.vertices[v] == h.vertices[v].(conflictFace := Some(right)))
    && (forall v | v in h.vertices && v !in h.faces[left].conflictList :: r.vertices[v] == h.vertices[v])
  }

  lemma MoveConflictsConsistent(h: Hull, left: FaceId, right: FaceId)
    requires left in h.faces && right in h.faces && left != right
    requires Consistent(h)
    ensures Consistent(MoveConflicts(h, left, right))
    ensures Pending(MoveConflicts(h, left, right)) == Pending(h)
  {
    var r := MoveConflicts(h, left, right);
    MoveConflictsEffect(h, left, right);
    assert Moved(h, left, right, r);
    MovedRightList(h, left, right, r);
    MovedOtherLists(h, left, right, r);
    MovedPoints(h, left, right, r);
    MovedHullVertices(h, left, right, r);
  }

  /** The list of `right` stays distinct and each of its points names `right`. */
  lemma MovedRightList(h: Hull, left: FaceId, right: FaceId, r: Hull)
    requires left in h.faces && right in h.faces && left != right
    requires Consistent(h) && Moved(h, left, right, r)
    ensures Distinct(r.faces[right].conflictList)
    ensures forall j | 0 <= j < |r.faces[right].conflictList| ::
      && r.faces[right].conflictList[j] in r.vertices
      && r.vertices[r.faces[right].conflictList[j]].conflictFace == Some(right)
  {
    var l := h.faces[left].conflictList;
    var rl := h.faces[right].conflictList;
    ReverseDistinct(l);
    ReverseMembers(l);
    forall x | x in Reverse(l) ensures x !in rl {
      ConflictListsDisjoint(h, left, right, x);
    }
    DistinctConcat(Reverse(l), rl);
    forall j | 0 <= j < |r.faces[right].conflictList|
      ensures r.faces[right].conflictList[j] in r.vertices
      ensures r.vertices[r.faces[right].conflictList[j]].conflictFace == Some(right)
    {
      var v := r.faces[right].conflictList[j];
      if j < |l| {
        assert v in Reverse(l);
        var i :| 0 <= i < |l| && l[i] == v;
      } else {
        assert v == rl[j - |l|];
        ConflictListsDisjoint(h, right, left, v);
      }
    }
  }

  /** Every other list stays distinct and each of its points keeps naming its face. */
  lemma MovedOtherLists(h: Hull, left: FaceId, right: FaceId, r: Hull)
    requires left in h.faces && right in h.faces && left != right
    requires Consistent(h) && Moved(h, left, right, r)
    ensures forall f | f in r.faces && f != right :: Distinct(r.faces[f].conflictList)
    ensures forall f, j | f in r.faces && f != right && 0 <= j < |r.faces[f].conflictList| ::
      && r.faces[f].conflictList[j] in r.vertices
      && r.vertices[r.faces[f].conflictList[j]].conflictFace == Some(f)
  {
    forall f, j | f in r.faces && f != right && 0 <= j < |r.faces[f].conflictList|
      ensures r.faces[f].conflictList[j] in r.vertices
      ensures r.vertices[r.faces[f].conflictList[j]].conflictFace == Some(f)
    {
      var v := r.faces[f].conflictList[j];
      assert f != left;
      assert v in h.faces[f].conflictList;
      ConflictListsDisjoint(h, f, left, v);
    }
  }

  /** Every point naming a face is on that face's list, and the same points are pending. */
  lemma MovedPoints(h: Hull, left: FaceId, right: FaceId, r: Hull)
    requires left in h.faces && right in h.faces && left != right
    requires Consistent(h) && Moved(h, left, right, r)
    ensures forall v | v in r.vertices && r.vertices[v].conflictFace.Some? ::
      && r.vertices[v].conflictFace.value in r.faces
      && v in r.faces[r.vertices[v].conflictFace.value].conflictList
    ensures Pending(r) == Pending(h)
  {
    var l := h.faces[left].conflictList;
    ReverseMembers(l);
    forall v | v in r.vertices && r.vertices[v].conflictFace.Some?
      ensures r.vertices[v].conflictFace.value in r.faces
      ensures v in r.faces[r.vertices[v].conflictFace.value].conflictList
    {
      if v in l {
        assert v in Reverse(l);
      } else {
        assert r.vertices[v] == h.vertices[v];
        var g := h.vertices[v].conflictFace.value;
        assert v in h.faces[g].conflictList;
      }
    }
    assert Pending(r) == Pending(h) by {
      forall v | v in l && v in h.vertices ensures h.vertices[v].conflictFace.Some? {
        var j :| 0 <= j < |l| && l[j] == v;
      }
    }
  }

  /** The hull vertices are on no list before, so the move leaves them as they were. */
  lemma MovedHullVertices(h: Hull, left: FaceId, right: FaceId, r: Hull)
    requires left in h.faces && right in h.faces && left != right
    requires Consistent(h) && Moved(h, left, right, r)
    ensures forall i | 0 <= i < |r.vertexList| ::
      r.vertexList[i] in r.vertices && r.vertices[r.vertexList[i]].conflictFace.None?
  {
    var l := h.faces[left].conflictList;
    forall i | 0 <= i < |r.vertexList| ensures r.vertices[r.vertexList[i]].conflictFace.None? {
      var v := r.vertexList[i];
      assert v !in l by {
        forall j | 0 <= j < |l| ensures l[j] != v {
          assert h.vertices[l[j]].conflictFace.Some?;
        }
      }
    }
  }

  /** Sets the `next` pointer of the edge `x` points to; a NULL or freed target writes nothing. */
  function SetNext(edges: map<EdgeId, HalfEdge>, x: Option<EdgeId>, v: Option<EdgeId>): (r: map<EdgeId, HalfEdge>)
    ensures r.Keys == edges.Keys
    ensures forall y | y in edges :: r[y] == edges[y].(next := r[y].next)
  {
    if x.Some? && x.value in edges then edges[x.value := edges[x.value].(next := v)] else edges
  }

  function SetPrev(edges: map<EdgeId, HalfEdge>, x: Option<EdgeId>, v: Option<EdgeId>): (r: map<EdgeId, HalfEdge>)
    ensures r.Keys == edges.Keys
    ensures forall y | y in edges :: r[y] == edges[y].(prev := r[y].prev)
  {
    if x.Some? && x.value in edges then edges[x.value := edges[x.value].(prev := v)] else edges
  }

  /**
   * The four link writes that cut `e` and its twin `t` out of the merged boundary, in the order
   * the builder performs them, each reading the pointers as the previous writes left them.
   */
  function Splice(m0: map<EdgeId, HalfEdge>, e: EdgeId, t: EdgeId): (r: map<EdgeId, HalfEdge>)
    requires e in m0 && t in m0
    ensures r.Keys == m0.Keys
    ensures forall x | x in m0 :: r[x] == m0[x].(next := r[x].next, prev := r[x].prev)
  {
    var m1 := SetNext(m0, m0[e].prev, m0[t].next);
    var m2 := SetPrev(m1, m1[e].next, m1[t].prev);
    var m3 := SetNext(m2, m2[t].prev, m2[e].next);
    SetPrev(m3, m3[t].next, m3[e].prev)
  }

  /**
   * When the four neighbours are neither `e` nor `t` and the two writes to each field hit
   * different edges, the splice joins `e.prev` to `t.next` and `t.prev` to `e.next` and touches
   * nothing else.
   */
  lemma SpliceEffect(m0: map<EdgeId, HalfEdge>, e: EdgeId, t: EdgeId)
    requires e in m0 && t in m0
    requires m0[e].prev.Some? && m0[e].next.Some? && m0[t].prev.Some? && m0[t].next.Some?
    requires var ep, en, tp, tn := m0[e].prev.value, m0[e].next.value, m0[t].prev.value, m0[t].next.value;
      && ep in m0 && en in m0 && tp in m0 && tn in m0
      && ep !in {e, t} && en !in {e, t} && tp !in {e, t} && tn !in {e, t}
      && ep != tp && en != tn
    ensures var r := Splice(m0, e, t);
      var ep, en, tp, tn := m0[e].prev.value, m0[e].next.value, m0[t].prev.value, m0[t].next.value;
      && r[ep].next == Some(tn) && r[tn].prev == Some(ep)
      && r[tp].next == Some(en) && r[en].prev == Some(tp)
      && (forall x | x in m0 && x != ep && x != tp :: r[x].next == m0[x].next)
      && (forall x | x in m0 && x != en && x != tn :: r[x].prev == m0[x].prev)
      && (forall x | x in m0 :: r[x].tail == m0[x].tail && r[x].face == m0[x].face && r[x].twin == m0[x].twin)
  {
  }

  /** Gives every edge of `c` the face `f`. */
  function SetFaces(edges: map<EdgeId, HalfEdge>, c: seq<EdgeId>, f: FaceId): (r: map<EdgeId, HalfEdge>)
    ensures r.Keys == edges.Keys
    ensures forall x | x in edges && x in c :: r[x] == edges[x].(face := Some(f))
    ensures forall x | x in edges && x !in c :: r[x] == edges[x]
  {
    map x | x in edges :: if x in c then edges[x].(face := Some(f)) else edges[x]
  }

  /** What `RemoveEdge(e)` does to the faces, given `e`'s twin `t` and the left boundary `l` in `h`. */
  ghost predicate FacesAfterRemove(h: Hull, r: Hull, e: EdgeId, t: EdgeId, right: FaceId, left: FaceId)
    requires e in h.edges && right in h.faces && left in h.faces
  {
    && r.faces.Keys == h.faces.Keys - {left}
    && r.faceList == Without(h.faceList, left)
    && right in r.faces
    && r.faces[right].conflictList == Reverse(h.faces[left].conflictList) + h.faces[right].conflictList
    && h.edges[e].prev.Some? && r.faces[right].edge == h.edges[e].prev.value
    && r.faces[right].mark == h.faces[right].mark
    && (forall g | g in h.faces && g != left && g != right :: r.faces[g] == h.faces[g])
  }

  /** What `RemoveEdge(e)` does to the half-edges: `e` and `t` go, the left boundary `l` joins `right`. */
  ghost predicate EdgesAfterRemove(h: Hull, r: Hull, e: EdgeId, t: EdgeId, l: seq<EdgeId>, right: FaceId)
  {
    && r.edges.Keys == h.edges.Keys - {e, t}
    && (forall x | x in r.edges :: r.edges[x].tail == h.edges[x].tail && r.edges[x].twin == h.edges[x].twin)
    && (forall x | x in r.edges :: r.edges[x].face == if x in l then Some(right) else h.edges[x].face)
  }

  /** What `RemoveEdge(e)` does to the points: those of the left face now name `right`. */
  ghost predicate VerticesAfterRemove(h: Hull, r: Hull, right: FaceId, left: FaceId)
    requires left in h.faces
  {
    && r.vertexList == h.vertexList && r.tolerance == h.tolerance && r.iterations == h.iterations
    && r.vertices.Keys == h.vertices.Keys
    && (forall v | v in h.vertices :: r.vertices[v] ==
          if v in h.faces[left].conflictList then h.vertices[v].(conflictFace := Some(right)) else h.vertices[v])
  }

  /** The state `RemoveEdge(e)` reaches before recomputing the right face's plane. */
  function Absorb(h: Hull, e: EdgeId): (r: Hull)
    requires CanRemove(h, e)
  {
    var t := h.edges[e].twin.value;
    var right := h.edges[e].face.value;
    var left := h.edges[t].face.value;
    var h1 := MoveConflicts(h, left, right);
    var h2 := h1.(faces := h1.faces[right := h1.faces[right].(edge := h.edges[e].prev.value)]);
    var m := Splice(SetFaces(h.edges, EdgeLoop(h.edges, t).value, right), e, t);
    h2.(edges := m - {e, t}, faces := h2.faces - {left}, faceList := Without(h2.faceList, left))
  }

  lemma AbsorbFaces(h: Hull, e: EdgeId)
    requires CanRemove(h, e)
    ensures var t := h.edges[e].twin.value;
      FacesAfterRemove(h, Absorb(h, e), e, t, h.edges[e].face.value, h.edges[t].face.value)
  {
    var t := h.edges[e].twin.value;
    MoveConflictsEffect(h, h.edges[t].face.value, h.edges[e].face.value);
  }

  lemma AbsorbEdges(h: Hull, e: EdgeId)
    requires CanRemove(h, e)
    ensures var t := h.edges[e].twin.value;
      EdgesAfterRemove(h, Absorb(h, e), e, t, EdgeLoop(h.edges, t).value, h.edges[e].face.value)
  {
  }

  lemma AbsorbVertices(h: Hull, e: EdgeId)
    requires CanRemove(h, e)
    ensures var t := h.edges[e].twin.value;
      VerticesAfterRemove(h, Absorb(h, e), h.edges[e].face.value, h.edges[t].face.value)
  {
    var t := h.edges[e].twin.value;
    MoveConflictsEffect(h, h.edges[t].face.value, h.edges[e].face.value);
  }

  lemma AbsorbConsistent(h: Hull, e: EdgeId)
    requires CanRemove(h, e)
    ensures Consistent(h) ==> Consistent(Absorb(h, e)) && Pending(Absorb(h, e)) == Pending(h)
  {
    var t := h.edges[e].twin.value;
    var right := h.edges[e].face.value;
    var left := h.edges[t].face.value;
    var h1 := MoveConflicts(h, left, right);
    MoveConflictsEffect(h, left, right);
    var h2 := h1.(faces := h1.faces[right := h1.faces[right].(edge := h.edges[e].prev.value)]);
    RemoveEdgeConsistent(h, h1, h2, Absorb(h, e), left, right, h.edges[e].prev.value);
  }

  /** Recomputing the plane keeps everything `Absorb` established. */
  lemma PlaneAfterAbsorb(h: Hull, a: Hull, r: Hull, k: Kernel, e: EdgeId, t: EdgeId, right: FaceId, left: FaceId)
    requires e in h.edges && right in h.faces && left in h.faces
    requires FacesAfterRemove(h, a, e, t, right, left)
    requires r == ComputePlane(a, k, right)
    ensures FacesAfterRemove(h, r, e, t, right, left)
    ensures r.edges == a.edges && r.vertices == a.vertices && r.vertexList == a.vertexList
    ensures r.tolerance == a.tolerance && r.iterations == a.iterations
    ensures Pending(r) == Pending(a) && (Consistent(a) ==> Consistent(r))
    ensures FaceLoop(r, right).Some? ==>
      && r.faces[right].center == Centroid(LoopPositions(r, FaceLoop(r, right).value))
      && Distance(r.faces[right].center, r.faces[right].plane) == 0.0
  {
    ComputePlaneKeeps(a, k, right);
    assert FaceLoop(r, right) == FaceLoop(a, right);
    if FaceLoop(a, right).Some? {
      var c := FaceLoop(a, right).value;
      assert LoopPositions(r, c) == LoopPositions(a, c) by {
        assert forall i | 0 <= i < |c| :: TailPosition(r, c[i]) == TailPosition(a, c[i]);
      }
    }
  }

  /**
   * Removes edge `e` between its face (the right face) and its twin's face (the left face): the
   * left face's conflict points move to the right face, the right face adopts `e.prev` as its
   * edge and every edge of the left boundary, the two loops are spliced, `e`, its twin and the
   * left face are freed, and the right face's plane is recomputed. Returns the right face.
   */
  function RemoveEdge(h: Hull, k: Kernel, e: EdgeId): (r: (Hull, FaceId))
    requires CanRemove(h, e)
    ensures r.1 == h.edges[e].face.value
    ensures var t := h.edges[e].twin.value;
      var left := h.edges[t].face.value;
      && FacesAfterRemove(h, r.0, e, t, r.1, left)
      && EdgesAfterRemove(h, r.0, e, t, EdgeLoop(h.edges, t).value, r.1)
      && VerticesAfterRemove(h, r.0, r.1, left)
    ensures FaceLoop(r.0, r.1).Some? ==>
      && r.0.faces[r.1].center == Centroid(LoopPositions(r.0, FaceLoop(r.0, r.1).value))
      && Distance(r.0.faces[r.1].center, r.0.faces[r.1].plane) == 0.0
    ensures Consistent(h) ==> Consistent(r.0) && Pending(r.0) == Pending(h)
  {
    var t := h.edges[e].twin.value;
    var right := h.edges[e].face.value;
    var a := Absorb(h, e);
    AbsorbFaces(h, e);
    AbsorbEdges(h, e);
    AbsorbVertices(h, e);
    AbsorbConsistent(h, e);
    var r := ComputePlane(a, k, right);
    PlaneAfterAbsorb(h, a, r, k, e, t, right, h.edges[t].face.value);
    (r, right)
  }

  /** Freeing the left face after its conflict points have moved keeps the conflict graph consistent. */
  lemma RemoveEdgeConsistent(h: Hull, h1: Hull, h2: Hull, h3: Hull, left: FaceId, right: FaceId, edge: EdgeId)
    requires left in h.faces && right in h.faces && left != right
    requires h1 == MoveConflicts(h, left, right)
    requires right in h1.faces && h2 == h1.(faces := h1.faces[right := h1.faces[right].(edge := edge)])
    requires h3 == h2.(edges := h3.edges, faces := h2.faces - {left}, faceList := Without(h2.faceList, left))
    ensures Consistent(h) ==> Consistent(h3) && Pending(h3) == Pending(h)
  {
    if Consistent(h) {
      MoveConflictsConsistent(h, left, right);
      MoveConflictsEffect(h, left, right);
      ConflictsUnchanged(h1, h2);
      RemovedFace(h2, h3, left);
    }
  }

  // ---------------------------------------------------------------------------------------------
  // Merging loops.

  /**
   * Edge `e` of face `right` separates it from a different, allocated face that is not strictly
   * convex against it: the two centers are not both more than the tolerance below the other
   * face's plane. A NULL or freed face across `e` is passed over.
   */
  predicate Mergeable(h: Hull, right: FaceId, e: EdgeId)
    requires right in h.faces
  {
    match TwinFaceOf(h, e)
    case None => false
    case Some(left) =>
      && left != right
      && var d1 := Distance(h.faces[left].center, h.faces[right].plane);
      && var d2 := Distance(h.faces[right].center, h.faces[left].plane);
      && !(d1 < -h.tolerance && d2 < -h.tolerance)
  }

  /** The first edge of `c` that `Mergeable` accepts. */
  function FirstMergeable(h: Hull, right: FaceId, c: seq<EdgeId>): (r: Option<EdgeId>)
    requires right in h.faces
    ensures r.None? <==> forall i | 0 <= i < |c| :: !Mergeable(h, right, c[i])
    ensures r.Some? ==> exists i | 0 <= i < |c| ::
      && c[i] == r.value
      && Mergeable(h, right, c[i])
      && forall j | 0 <= j < i :: !Mergeable(h, right, c[j])
    decreases |c|
  {
    if |c| == 0 then None
    else if Mergeable(h, right, c[0]) then Some(c[0])
    else
      var r := FirstMergeable(h, right, c[1..]);
      assert forall i | 1 <= i < |c| :: c[i] == c[1..][i - 1];
      r
  }

  /**
   * Walks the boundary of `right` and removes the first edge whose neighbour is not strictly
   * convex against it; reports whether an edge was removed. A boundary that does not close, or
   * an edge `RemoveEdge` could not dereference or that belongs to another face, ends the walk
   * without a merge.
   */
  function MergeFace(h: Hull, k: Kernel, right: FaceId): (r: (Hull, bool))
    requires right in h.faces
    ensures !r.1 ==> r.0 == h
    ensures r.1 <==> match FaceLoop(h, right)
      case None => false
      case Some(c) =>
        && FirstMergeable(h, right, c).Some?
        && CanRemove(h, FirstMergeable(h, right, c).value)
        && h.edges[FirstMergeable(h, right, c).value].face == Some(right)
    ensures r.1 ==> right in r.0.faces && |r.0.faces| == |h.faces| - 1 && r.0.faces.Keys < h.faces.Keys
    ensures r.1 ==> (
      && FaceLoop(h, right).Some?
      && FirstMergeable(h, right, FaceLoop(h, right).value).Some?
      && var e := FirstMergeable(h, right, FaceLoop(h, right).value).value;
      && CanRemove(h, e) && Mergeable(h, right, e)
      && r.0.faces.Keys == h.faces.Keys - {h.edges[h.edges[e].twin.value].face.value})
    ensures r.1 ==> r.0.faces[right].mark == h.faces[right].mark
    ensures r.0.vertexList == h.vertexList && r.0.tolerance == h.tolerance && r.0.iterations == h.iterations
    ensures Consistent(h) ==> Consistent(r.0) && Pending(r.0) == Pending(h)
  {
    match FaceLoop(h, right)
    case None => (h, false)
    case Some(c) =>
      match FirstMergeable(h, right, c)
      case None => (h, false)
      case Some(e) =>
        if CanRemove(h, e) && h.edges[e].face == Some(right) then
          var removed := RemoveEdge(h, k, e);
          OneFaceFreed(h.faces, removed.0.faces, h.edges[h.edges[e].twin.value].face.value);
          (removed.0, true)
        else (h, false)
  }

  /** Freeing one face of the map leaves one face fewer. */
  lemma OneFaceFreed(faces: map<FaceId, Face>, r: map<FaceId, Face>, left: FaceId)
    requires left in faces && r.Keys == faces.Keys - {left}
    ensures |r| == |faces| - 1 && r.Keys < faces.Keys
  {
    assert |r.Keys| == |faces.Keys| - 1;
  }

  /** Merges into face `f` while `MergeFace` finds an edge to remove; ends with no such edge. */
  function MergeLoop(h: Hull, k: Kernel, f: FaceId): (r: Hull)
    requires f in h.faces
    ensures f in r.faces && r.faces.Keys <= h.faces.Keys
    ensures !MergeFace(r, k, f).1
    ensures r.vertexList == h.vertexList && r.tolerance == h.tolerance && r.iterations == h.iterations
    ensures Consistent(h) ==> Consistent(r) && Pending(r) == Pending(h)
    decreases |h.faces|
  {
    var m := MergeFace(h, k, f);
    if m.1 then MergeLoop(m.0, k, f) else h
  }

  /**
   * Runs `MergeLoop` on each face of `fs` in order, skipping those an earlier merge already
   * freed. Faces are only ever freed, and the last face, if it survives, has nothing left to
   * merge.
   */
  function MergeFaces(h: Hull, k: Kernel, fs: seq<FaceId>): (r: Hull)
    ensures r.faces.Keys <= h.faces.Keys
    ensures |fs| > 0 && fs[|fs| - 1] in r.faces ==> !MergeFace(r, k, fs[|fs| - 1]).1
    ensures r.vertexList == h.vertexList && r.tolerance == h.tolerance && r.iterations == h.iterations
    ensures Consistent(h) ==> Consistent(r) && Pending(r) == Pending(h)
    decreases |fs|
  {
    if |fs| == 0 then h
    else
      var h' := if fs[0] in h.faces then MergeLoop(h, k, fs[0]) else h;
      assert |fs| > 1 ==> fs[1..][|fs| - 2] == fs[|fs| - 1];
      MergeFaces(h', k, fs[1..])
  }

  // ---------------------------------------------------------------------------------------------
  // The merged boundary.

  /**
   * The boundary the splice produces from the right loop `rc` (starting at the removed edge) and
   * the left loop `lc` (starting at its twin): from `e.prev`, the left loop without the twin,
   * then the right loop without `e`.
   */
  function MergedLoop(rc: seq<EdgeId>, lc: seq<EdgeId>): (s: seq<EdgeId>)
    requires |rc| >= 2 && |lc| >= 2
    ensures |s| == |rc| + |lc| - 2
  {
    [rc[|rc| - 1]] + lc[1..] + rc[1..|rc| - 1]
  }

  /** Changing only faces keeps every loop and its `prev` pointers. */
  lemma SetFacesKeepsLoop(edges: map<EdgeId, HalfEdge>, c: seq<EdgeId>, l: seq<EdgeId>, f: FaceId)
    requires IsLoop(edges, c) && PrevInverse(edges, c)
    ensures IsLoop(SetFaces(edges, l, f), c) && PrevInverse(SetFaces(edges, l, f), c)
  {
  }

  /** Where each position of `MergedLoop` comes from, and that it has no repeats. */
  lemma MergedLoopShape(rc: seq<EdgeId>, lc: seq<EdgeId>)
    requires |rc| >= 2 && |lc| >= 2 && Distinct(rc) && Distinct(lc)
    requires forall x | x in rc :: x !in lc
    ensures var s := MergedLoop(rc, lc);
      && s[0] == rc[|rc| - 1]
      && (forall i | 0 < i < |lc| :: s[i] == lc[i])
      && (forall i | |lc| <= i < |s| :: s[i] == rc[i - |lc| + 1])
      && Distinct(s)
      && rc[0] !in s && lc[0] !in s
  {
    var s := MergedLoop(rc, lc);
    var nl := |lc| - 1;
    forall i, j | 0 <= i < j < |s| ensures s[i] != s[j] {
      if i == 0 && j <= nl {
        assert s[j] in lc;
      } else if i == 0 {
        assert s[j] == rc[j - nl];
      } else if j <= nl {
      } else if i <= nl {
        assert s[i] in lc && s[j] in rc;
      } else {
        assert s[i] == rc[i - nl] && s[j] == rc[j - nl];
      }
    }
    forall i | 0 <= i < |s| ensures s[i] != rc[0] && s[i] != lc[0] {
      if i == 0 {
        assert lc[0] in lc;
      } else if i <= nl {
        assert s[i] == lc[i] && rc[0] in rc;
      } else {
        assert s[i] == rc[i - nl] && lc[0] in lc;
      }
    }
  }

  /** The links of the spliced map along `MergedLoop`. */
  ghost predicate SplicedLinks(m0: map<EdgeId, HalfEdge>, sp: map<EdgeId, HalfEdge>, rc: seq<EdgeId>, lc: seq<EdgeId>)
    requires |rc| >= 2 && |lc| >= 2
  {
    var ep, en, tp, tn := rc[|rc| - 1], rc[1], lc[|lc| - 1], lc[1];
    && ep in sp && en in sp && tp in sp && tn in sp
    && sp[ep].next == Some(tn) && sp[tn].prev == Some(ep)
    && sp[tp].next == Some(en) && sp[en].prev == Some(tp)
    && (forall x | x in m0 && x != ep && x != tp :: x in sp && sp[x].next == m0[x].next)
    && (forall x | x in m0 && x != en && x != tn :: x in sp && sp[x].prev == m0[x].prev)
  }

  lemma SplicedNext(m0: map<EdgeId, HalfEdge>, sp: map<EdgeId, HalfEdge>, m: map<EdgeId, HalfEdge>, rc: seq<EdgeId>, lc: seq<EdgeId>)
    requires IsLoop(m0, rc) && |rc| >= 2 && IsLoop(m0, lc) && |lc| >= 2
    requires forall x | x in rc :: x !in lc
    requires SplicedLinks(m0, sp, rc, lc)
    requires m == sp - {rc[0], lc[0]}
    ensures IsLoop(m, MergedLoop(rc, lc))
  {
    var s := MergedLoop(rc, lc);
    var nl := |lc| - 1;
    MergedLoopShape(rc, lc);
    forall i | 0 <= i < |s| ensures s[i] in m {
      if i == 0 {
      } else if i <= nl {
        assert s[i] in lc;
      } else {
        assert s[i] in rc;
      }
    }
    forall i | 0 <= i < |s| - 1 ensures m[s[i]].next == Some(s[i + 1]) {
      if 0 < i < nl {
        var x := lc[i];
        assert s[i] == x && s[i + 1] == lc[i + 1];
        assert rc[|rc| - 1] in rc && x in lc && x != lc[|lc| - 1];
        assert m0[x].next == Some(lc[i + 1]);
      } else if i > nl {
        var x := rc[i - nl];
        assert x != rc[|rc| - 1] && x in rc && x !in lc;
      }
    }
    if |rc| > 2 {
      var x := rc[|rc| - 2];
      assert s[|s| - 1] == x && x != rc[|rc| - 1] && x in rc && x !in lc;
    }
  }

  lemma SplicedPrev(m0: map<EdgeId, HalfEdge>, sp: map<EdgeId, HalfEdge>, m: map<EdgeId, HalfEdge>, rc: seq<EdgeId>, lc: seq<EdgeId>)
    requires IsLoop(m0, rc) && PrevInverse(m0, rc) && |rc| >= 2
    requires IsLoop(m0, lc) && PrevInverse(m0, lc) && |lc| >= 2
    requires forall x | x in rc :: x !in lc
    requires SplicedLinks(m0, sp, rc, lc)
    requires m == sp - {rc[0], lc[0]}
    requires IsLoop(m, MergedLoop(rc, lc))
    ensures PrevInverse(m, MergedLoop(rc, lc))
  {
    var s := MergedLoop(rc, lc);
    var nl := |lc| - 1;
    MergedLoopShape(rc, lc);
    forall i | 0 < i < |s| ensures m[s[i]].prev == Some(s[i - 1]) {
      if 1 < i <= nl {
        var x := lc[i];
        assert s[i] == x && s[i - 1] == lc[i - 1];
        assert rc[1] in rc && x in lc && x != lc[1];
        assert m0[x].prev == Some(lc[i - 1]);
      } else if i > nl + 1 {
        var x := rc[i - nl];
        assert x != rc[1] && x in rc && x !in lc;
      }
    }
    if |rc| > 2 {
      var ep := rc[|rc| - 1];
      assert ep != rc[1] && ep in rc && ep !in lc;
    }
  }

  lemma SplicedLoop(m0: map<EdgeId, HalfEdge>, e: EdgeId, t: EdgeId, rc: seq<EdgeId>, lc: seq<EdgeId>)
    requires IsLoop(m0, rc) && PrevInverse(m0, rc) && |rc| >= 2 && rc[0] == e
    requires IsLoop(m0, lc) && PrevInverse(m0, lc) && |lc| >= 2 && lc[0] == t
    requires forall x | x in rc :: x !in lc
    ensures var m := Splice(m0, e, t) - {e, t};
      IsLoop(m, MergedLoop(rc, lc)) && PrevInverse(m, MergedLoop(rc, lc))
  {
    var ep, en, tp, tn := rc[|rc| - 1], rc[1], lc[|lc| - 1], lc[1];
    assert ep != tp && en != tn && ep !in {e, t} && en !in {e, t} && tp !in {e, t} && tn !in {e, t} by {
      assert rc[|rc| - 1] in rc && rc[1] in rc && lc[|lc| - 1] in lc && lc[1] in lc;
      assert rc[0] in rc && lc[0] in lc;
    }
    SpliceEffect(m0, e, t);
    var sp := Splice(m0, e, t);
    assert SplicedLinks(m0, sp, rc, lc);
    SplicedNext(m0, sp, sp - {e, t}, rc, lc);
    SplicedPrev(m0, sp, sp - {e, t}, rc, lc);
  }

  /**
   * When `e`'s face and its twin's face are disjoint simple loops of at least two edges, the right
   * face's boundary after `RemoveEdge(e)` is exactly `MergedLoop` of the two.
   */
  lemma RemoveEdgeMergesLoops(h: Hull, k: Kernel, e: EdgeId, rc: seq<EdgeId>, lc: seq<EdgeId>)
    requires CanRemove(h, e)
    requires IsLoop(h.edges, rc) && PrevInverse(h.edges, rc) && |rc| >= 2 && rc[0] == e
    requires IsLoop(h.edges, lc) && PrevInverse(h.edges, lc) && |lc| >= 2 && lc[0] == h.edges[e].twin.value
    requires forall x | x in rc :: x !in lc
    ensures var r := RemoveEdge(h, k, e);
      && IsLoop(r.0.edges, MergedLoop(rc, lc))
      && PrevInverse(r.0.edges, MergedLoop(rc, lc))
      && FaceLoop(r.0, r.1) == Some(MergedLoop(rc, lc))
  {
    var t := h.edges[e].twin.value;
    var right := h.edges[e].face.value;
    LoopWalk(h.edges, lc);
    var m0 := SetFaces(h.edges, lc, right);
    SetFacesKeepsLoop(h.edges, rc, lc, right);
    SetFacesKeepsLoop(h.edges, lc, lc, right);
    SplicedLoop(m0, e, t, rc, lc);
    var r := RemoveEdge(h, k, e);
    assert r.0.edges == Absorb(h, e).edges == Splice(m0, e, t) - {e, t};
    AbsorbFaces(h, e);
    assert r.0.faces[r.1].edge == rc[|rc| - 1];
    LoopWalk(r.0.edges, MergedLoop(rc, lc));
  }
}
