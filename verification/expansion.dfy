/**
 * `AddNewFaces`: the eye leaves the conflict graph and becomes a hull vertex, the faces it sees
 * are removed and their conflict points set aside, a fan of triangles joins the eye to the
 * horizon, and every point set aside is filed under a new face or freed.
 */
module Expansion {
  import opened Options
  import opened Geometry
  import opened Sequences
  import opened Mesh
  import opened MeshEdit
  import opened Conflicts
  import opened InitialHull
  import opened Horizon

  // ---------------------------------------------------------------------------------------------
  // Taking the eye out of the conflict graph.

  /** The eye is an allocated point filed under an allocated face: what the removal dereferences. */
  predicate EyeFiled(h: Hull, eye: VertexId) {
    eye in h.vertices && h.vertices[eye].conflictFace.Some? && h.vertices[eye].conflictFace.value in h.faces
  }

  /** `Remove` of the eye from its face's conflict list, then `FreeVertex`. */
  function RemoveEye(h: Hull, eye: VertexId): (r: Hull)
    requires EyeFiled(h, eye)
    ensures r.vertices == h.vertices - {eye}
    ensures Pending(r) == Pending(h) - {eye}
    ensures Consistent(h) ==> Consistent(r)
    ensures r.faces.Keys == h.faces.Keys
    ensures var f := h.vertices[eye].conflictFace.value;
      && r.faces[f] == h.faces[f].(conflictList := Without(h.faces[f].conflictList, eye))
      && forall g | g in h.faces && g != f :: r.faces[g] == h.faces[g]
    ensures r == h.(vertices := r.vertices, faces := r.faces)
  {
    var f := h.vertices[eye].conflictFace.value;
    var face := h.faces[f];
    var r := h.(vertices := h.vertices - {eye}, faces := h.faces[f := face.(conflictList := Without(face.conflictList, eye))]);
    EyeRemoved(h, r, eye);
    r
  }

  lemma EyeRemoved(h: Hull, r: Hull, eye: VertexId)
    requires EyeFiled(h, eye)
    requires var f := h.vertices[eye].conflictFace.value;
      r == h.(vertices := h.vertices - {eye}, faces := h.faces[f := h.faces[f].(conflictList := Without(h.faces[f].conflictList, eye))])
    ensures Pending(r) == Pending(h) - {eye}
    ensures Consistent(h) ==> Consistent(r)
  {
    assert Pending(r) == Pending(h) - {eye};
    if Consistent(h) {
      EyeOnlyThere(h, eye);
      EyeRemovedConsistent(h, r, eye);
    }
  }

  /** Under a consistent conflict graph the eye is on its own face's list and on no other. */
  lemma EyeOnlyThere(h: Hull, eye: VertexId)
    requires EyeFiled(h, eye) && Consistent(h)
    ensures forall g | g in h.faces && g != h.vertices[eye].conflictFace.value :: eye !in h.faces[g].conflictList
  {
    forall g | g in h.faces && g != h.vertices[eye].conflictFace.value ensures eye !in h.faces[g].conflictList {
    }
  }

  lemma EyeRemovedConsistent(h: Hull, r: Hull, eye: VertexId)
    requires EyeFiled(h, eye) && Consistent(h)
    requires forall g | g in h.faces && g != h.vertices[eye].conflictFace.value :: eye !in h.faces[g].conflictList
    requires var f := h.vertices[eye].conflictFace.value;
      r == h.(vertices := h.vertices - {eye}, faces := h.faces[f := h.faces[f].(conflictList := Without(h.faces[f].conflictList, eye))])
    ensures Consistent(r)
  {
    var f := h.vertices[eye].conflictFace.value;
    WithoutDistinct(h.faces[f].conflictList, eye);
    forall g, j | g in r.faces && 0 <= j < |r.faces[g].conflictList|
      ensures r.faces[g].conflictList[j] in r.vertices
      ensures r.vertices[r.faces[g].conflictList[j]].conflictFace == Some(g)
    {
      var v := r.faces[g].conflictList[j];
      assert v in h.faces[g].conflictList && v != eye;
      var i :| 0 <= i < |h.faces[g].conflictList| && h.faces[g].conflictList[i] == v;
    }
    forall v | v in r.vertices && r.vertices[v].conflictFace.Some?
      ensures v in r.faces[r.vertices[v].conflictFace.value].conflictList
    {
    }
  }

  // ---------------------------------------------------------------------------------------------
  // Removing the visible faces and setting their conflict points aside.

  /** `r` has the vertices of `h` at the same positions, and the same vertex list and scalars. */
  ghost predicate PointsKept(h: Hull, r: Hull) {
    && r.vertices.Keys == h.vertices.Keys
    && (forall v | v in h.vertices :: r.vertices[v].position == h.vertices[v].position)
    && r.vertexList == h.vertexList
    && r.tolerance == h.tolerance && r.iterations == h.iterations
  }

  /** A pending point of `h` filed under a face of `fs` that is marked visible: one the removal orphans. */
  ghost predicate OrphanOf(h: Hull, fs: seq<FaceId>, v: VertexId) {
    && v in Pending(h)
    && var g := h.vertices[v].conflictFace.value;
    && g in fs && g in h.faces && h.faces[g].mark == Visible
  }

  /**
   * `r` keeps every point of `h` where it was, except that the points of `os` have been taken
   * off the conflict lists: over a consistent conflict graph they are distinct pending points
   * of `h` that `r` holds loose, and nothing else stops pending.
   */
  ghost predicate Orphaned(h: Hull, r: Hull, os: seq<VertexId>) {
    && PointsKept(h, r)
    && (forall u | Loose(h, u) :: Loose(r, u))
    && (Consistent(h) ==>
          && Consistent(r)
          && Distinct(os)
          && (forall v | v in os :: v in Pending(h) && Loose(r, v))
          && Pending(r) == Pending(h) - Members(os)
          && forall v | v in Pending(r) :: r.vertices[v].conflictFace == h.vertices[v].conflictFace)
  }

  /**
   * One face of the removal loop: every point of its conflict list loses its conflict face and
   * is set aside, in list order, then the face is removed.
   */
  function RemoveVisibleFace(h: Hull, f: FaceId): (r: (Hull, seq<VertexId>))
    requires f in h.faces
    ensures r.1 == h.faces[f].conflictList
    ensures r.0.faces == h.faces - {f}
    ensures r.0.faceList == Without(h.faceList, f)
    ensures Orphaned(h, r.0, r.1)
  {
    var h1 := ClearList(h, f);
    var r := RemoveEmptyFace(h1, f);
    VisibleFaceRemoved(h, f, h1, r);
    (r, h.faces[f].conflictList)
  }

  /** Clearing the list and then removing the emptied face orphans exactly the list. */
  lemma VisibleFaceRemoved(h: Hull, f: FaceId, h1: Hull, r: Hull)
    requires f in h.faces && h1 == ClearList(h, f)
    requires r.vertices == h1.vertices && r.vertexList == h1.vertexList
    requires r.tolerance == h1.tolerance && r.iterations == h1.iterations
    requires r.faces == h1.faces - {f}
    requires Pending(r) == Pending(h1)
    requires Consistent(h1) ==> Consistent(r)
    ensures Orphaned(h, r, h.faces[f].conflictList)
  {
    Unfiled(h, h1, f);
    RemovedKeeps(h, h1, r, h.faces[f].conflictList);
  }

  /** `RemoveFace` of a face whose conflict list is already empty, seen from the conflict graph. */
  function RemoveEmptyFace(h: Hull, f: FaceId): (r: Hull)
    requires f in h.faces && h.faces[f].conflictList == []
    ensures r.faces == h.faces - {f} && r.faceList == Without(h.faceList, f)
    ensures r.vertices == h.vertices && r.vertexList == h.vertexList
    ensures r.tolerance == h.tolerance && r.iterations == h.iterations
    ensures Pending(r) == Pending(h)
    ensures Consistent(h) ==> Consistent(r)
  {
    RemoveFace(h, f).0
  }

  /** Every point of the conflict list of `f` loses its conflict face, and the list is emptied. */
  function ClearList(h: Hull, f: FaceId): (r: Hull)
    requires f in h.faces
    ensures r.faces == h.faces[f := h.faces[f].(conflictList := [])]
    ensures r.vertices.Keys == h.vertices.Keys && r.vertexList == h.vertexList
    ensures forall v | v in h.vertices :: r.vertices[v].position == h.vertices[v].position
    ensures r.tolerance == h.tolerance && r.iterations == h.iterations
    ensures r.edges == h.edges && r.faceList == h.faceList
    ensures forall v | v in h.vertices && v !in h.faces[f].conflictList :: r.vertices[v] == h.vertices[v]
    ensures forall v | v in h.vertices && v in h.faces[f].conflictList :: r.vertices[v].conflictFace.None?
  {
    var list := h.faces[f].conflictList;
    h.(vertices := map v | v in h.vertices :: if v in list then h.vertices[v].(conflictFace := None) else h.vertices[v],
       faces := h.faces[f := h.faces[f].(conflictList := [])])
  }

  /** The face removal after the list is cleared touches no point and keeps the conflict graph. */
  lemma RemovedKeeps(h: Hull, h1: Hull, r: Hull, os: seq<VertexId>)
    requires Orphaned(h, h1, os)
    requires r.vertices == h1.vertices && r.vertexList == h1.vertexList
    requires r.tolerance == h1.tolerance && r.iterations == h1.iterations
    requires r.faces.Keys <= h1.faces.Keys && forall g | g in r.faces :: r.faces[g] == h1.faces[g]
    requires Pending(r) == Pending(h1)
    requires Consistent(h1) ==> Consistent(r)
    ensures Orphaned(h, r, os)
  {
  }

  lemma Unfiled(h: Hull, h1: Hull, f: FaceId)
    requires f in h.faces
    requires h1 == ClearList(h, f)
    ensures Orphaned(h, h1, h.faces[f].conflictList)
  {
    if Consistent(h) {
      UnfiledConsistent(h, h1, f);
      UnfiledPending(h, h1, f);
    }
  }

  lemma UnfiledConsistent(h: Hull, h1: Hull, f: FaceId)
    requires f in h.faces && Consistent(h)
    requires h1 == ClearList(h, f)
    ensures Consistent(h1)
  {
    var list := h.faces[f].conflictList;
    forall g, j | g in h1.faces && 0 <= j < |h1.faces[g].conflictList|
      ensures h1.faces[g].conflictList[j] in h1.vertices
      ensures h1.vertices[h1.faces[g].conflictList[j]].conflictFace == Some(g)
    {
      var u := h.faces[g].conflictList[j];
      assert h.vertices[u].conflictFace == Some(g) && g != f;
      OnOneList(h, u, f);
    }
  }

  lemma UnfiledPending(h: Hull, h1: Hull, f: FaceId)
    requires f in h.faces && Consistent(h)
    requires h1 == ClearList(h, f)
    ensures Pending(h1) == Pending(h) - Members(h.faces[f].conflictList)
    ensures forall v | v in h.faces[f].conflictList :: v in Pending(h) && Loose(h1, v)
    ensures forall v | v in Pending(h1) :: h1.vertices[v].conflictFace == h.vertices[v].conflictFace
  {
    var list := h.faces[f].conflictList;
    forall v | v in list ensures v in Pending(h) && Loose(h1, v) {
      var i :| 0 <= i < |list| && list[i] == v;
      assert h.vertices[v].conflictFace == Some(f);
      forall g | g in h1.faces ensures v !in h1.faces[g].conflictList {
        if g != f {
          OnOneList(h, v, g);
        }
      }
    }
  }

  /** Under a consistent conflict graph a point is only on the list of the face it names. */
  lemma OnOneList(h: Hull, v: VertexId, g: FaceId)
    requires Consistent(h) && g in h.faces && v in h.vertices && h.vertices[v].conflictFace != Some(g)
    ensures v !in h.faces[g].conflictList
  {
  }

  /** The conflict lists of the faces of `fs` marked visible, concatenated in the order of `fs`. */
  function VisibleLists(h: Hull, fs: seq<FaceId>): seq<VertexId>
    decreases |fs|
  {
    if |fs| == 0 then []
    else
      var here := if fs[0] in h.faces && h.faces[fs[0]].mark == Visible then h.faces[fs[0]].conflictList else [];
      here + VisibleLists(h, fs[1..])
  }

  /**
   * What removing the visible faces of `fs` leaves: the points of `os` orphaned; exactly the
   * faces not both in `fs` and visible kept, unchanged; over a consistent conflict graph the
   * orphans are exactly the pending points filed under those faces; and when `fs` lists each
   * face once, the orphans come in the order of `fs` and, within a face, of its conflict list.
   */
  ghost predicate VisibleRemoved(h: Hull, fs: seq<FaceId>, r: Hull, os: seq<VertexId>) {
    && Orphaned(h, r, os)
    && (forall g :: g in r.faces <==> g in h.faces && !(g in fs && h.faces[g].mark == Visible))
    && (forall g | g in r.faces :: r.faces[g] == h.faces[g])
    && (Consistent(h) ==> forall v :: v in os <==> OrphanOf(h, fs, v))
    && (Distinct(fs) ==> os == VisibleLists(h, fs))
  }

  /**
   * The removal loop over the faces of `fs` (a snapshot of the face list): each face still
   * active and marked visible is removed, and the points of its conflict list are set aside.
   */
  function RemoveVisible(h: Hull, fs: seq<FaceId>): (r: (Hull, seq<VertexId>))
    ensures VisibleRemoved(h, fs, r.0, r.1)
    decreases |fs|
  {
    if |fs| == 0 then (h, [])
    else if fs[0] in h.faces && h.faces[fs[0]].mark == Visible then
      var removed := RemoveVisibleFace(h, fs[0]);
      var h1, os1 := removed.0, removed.1;
      var rest := RemoveVisible(h1, fs[1..]);
      var r, os2 := rest.0, rest.1;
      RemovedVisibleStep(h, fs, h1, os1, r, os2);
      (r, os1 + os2)
    else
      var rest := RemoveVisible(h, fs[1..]);
      var r, os := rest.0, rest.1;
      SkippedVisibleStep(h, fs, r, os);
      (r, os)
  }

  lemma RemovedVisibleStep(h: Hull, fs: seq<FaceId>, h1: Hull, os1: seq<VertexId>, r: Hull, os2: seq<VertexId>)
    requires |fs| > 0 && fs[0] in h.faces && h.faces[fs[0]].mark == Visible
    requires os1 == h.faces[fs[0]].conflictList && h1.faces == h.faces - {fs[0]}
    requires Orphaned(h, h1, os1) && VisibleRemoved(h1, fs[1..], r, os2)
    ensures VisibleRemoved(h, fs, r, os1 + os2)
  {
    OrphanedTransitive(h, h1, r, os1, os2);
    RemovedStep(h, h1, fs, os1);
    if Distinct(fs) {
      DistinctTail(fs);
      VisibleListsFrame(h, h1, fs[1..]);
    }
  }

  lemma SkippedVisibleStep(h: Hull, fs: seq<FaceId>, r: Hull, os: seq<VertexId>)
    requires |fs| > 0 && !(fs[0] in h.faces && h.faces[fs[0]].mark == Visible)
    requires VisibleRemoved(h, fs[1..], r, os)
    ensures VisibleRemoved(h, fs, r, os)
  {
    SkippedStep(h, fs);
    if Distinct(fs) {
      DistinctTail(fs);
    }
  }

  lemma OrphanedTransitive(h: Hull, m: Hull, r: Hull, os1: seq<VertexId>, os2: seq<VertexId>)
    requires Orphaned(h, m, os1) && Orphaned(m, r, os2)
    ensures Orphaned(h, r, os1 + os2)
  {
    if Consistent(h) {
      assert Consistent(m);
      OrphansDisjoint(h, m, os1, os2);
      OrphansLoose(h, m, r, os1, os2);
      OrphansPending(h, m, r, os1, os2);
    }
  }

  lemma OrphansLoose(h: Hull, m: Hull, r: Hull, os1: seq<VertexId>, os2: seq<VertexId>)
    requires forall u | Loose(m, u) :: Loose(r, u)
    requires forall v | v in os1 :: v in Pending(h) && Loose(m, v)
    requires forall v | v in os2 :: v in Pending(m) && Loose(r, v)
    requires Pending(m) <= Pending(h)
    ensures forall v | v in os1 + os2 :: v in Pending(h) && Loose(r, v)
  {
  }

  lemma OrphansPending(h: Hull, m: Hull, r: Hull, os1: seq<VertexId>, os2: seq<VertexId>)
    requires Pending(m) == Pending(h) - Members(os1)
    requires Pending(r) == Pending(m) - Members(os2)
    requires forall v | v in Pending(m) :: m.vertices[v].conflictFace == h.vertices[v].conflictFace
    requires forall v | v in Pending(r) :: r.vertices[v].conflictFace == m.vertices[v].conflictFace
    ensures Pending(r) == Pending(h) - Members(os1 + os2)
    ensures forall v | v in Pending(r) :: r.vertices[v].conflictFace == h.vertices[v].conflictFace
  {
    MembersAppend(os1, os2);
  }

  /** Points orphaned by a later step were still pending after an earlier one, so the two lists do not overlap. */
  lemma OrphansDisjoint(h: Hull, m: Hull, os1: seq<VertexId>, os2: seq<VertexId>)
    requires Distinct(os1) && Distinct(os2)
    requires Pending(m) == Pending(h) - Members(os1)
    requires forall v | v in os2 :: v in Pending(m)
    ensures Distinct(os1 + os2)
  {
    var os := os1 + os2;
    forall i, j | 0 <= i < j < |os| ensures os[i] != os[j] {
      if j >= |os1| && i < |os1| {
        assert os[j] == os2[j - |os1|] && os[i] == os1[i];
        assert os[j] in Pending(m);
      } else if i >= |os1| {
        assert os[i] == os2[i - |os1|] && os[j] == os2[j - |os1|];
      }
    }
  }

  /** Removing the first face of `fs`, when it is visible: the orphans of `fs` are its list and those of the rest. */
  lemma RemovedStep(h: Hull, h1: Hull, fs: seq<FaceId>, os1: seq<VertexId>)
    requires |fs| > 0 && fs[0] in h.faces && h.faces[fs[0]].mark == Visible
    requires os1 == h.faces[fs[0]].conflictList && h1.faces == h.faces - {fs[0]}
    requires Orphaned(h, h1, os1)
    ensures Consistent(h) ==> forall v :: (v in os1 || OrphanOf(h1, fs[1..], v)) <==> OrphanOf(h, fs, v)
  {
    if Consistent(h) {
      var f := fs[0];
      forall v ensures (v in os1 || OrphanOf(h1, fs[1..], v)) <==> OrphanOf(h, fs, v) {
        if v in os1 {
          var i :| 0 <= i < |os1| && os1[i] == v;
          assert h.vertices[v].conflictFace == Some(f);
        } else if v in Pending(h) {
          assert v in Pending(h1) && h1.vertices[v].conflictFace == h.vertices[v].conflictFace;
          var g := h.vertices[v].conflictFace.value;
          assert g != f;
          if g in fs {
            var i :| 0 <= i < |fs| && fs[i] == g;
            assert fs[1..][i - 1] == g;
          }
        } else {
          assert v !in Pending(h1);
        }
      }
    }
  }

  /** Skipping the first face of `fs`, when it is not active and visible: it has no orphans to give. */
  lemma SkippedStep(h: Hull, fs: seq<FaceId>)
    requires |fs| > 0 && !(fs[0] in h.faces && h.faces[fs[0]].mark == Visible)
    ensures Consistent(h) ==> forall v :: OrphanOf(h, fs[1..], v) <==> OrphanOf(h, fs, v)
  {
    if Consistent(h) {
      forall v | OrphanOf(h, fs, v) ensures OrphanOf(h, fs[1..], v) {
        var g := h.vertices[v].conflictFace.value;
        var i :| 0 <= i < |fs| && fs[i] == g;
        assert i > 0 && fs[1..][i - 1] == g;
      }
    }
  }

  lemma {:induction false} VisibleListsFrame(h: Hull, h1: Hull, fs: seq<FaceId>)
    requires forall g | g in fs :: (g in h1.faces <==> g in h.faces) && (g in h1.faces ==> h1.faces[g] == h.faces[g])
    ensures VisibleLists(h1, fs) == VisibleLists(h, fs)
    decreases |fs|
  {
    if |fs| > 0 {
      VisibleListsFrame(h, h1, fs[1..]);
    }
  }

  // ---------------------------------------------------------------------------------------------
  // Filing the orphans under the new faces.

  /** The orphans of `os` whose choice in `cs` is the face `g`, in order. */
  function ChosenFor(os: seq<VertexId>, cs: seq<Option<FaceId>>, g: FaceId): seq<VertexId>
    requires |cs| == |os|
    decreases |os|
  {
    if |os| == 0 then []
    else (if cs[0] == Some(g) then [os[0]] else []) + ChosenFor(os[1..], cs[1..], g)
  }

  /** The orphans of `os` that have a choice in `cs`. */
  function Chosen(os: seq<VertexId>, cs: seq<Option<FaceId>>): set<VertexId>
    requires |cs| == |os|
    decreases |os|
  {
    if |os| == 0 then {}
    else (if cs[0].Some? then {os[0]} else {}) + Chosen(os[1..], cs[1..])
  }

  lemma {:induction false} ChosenIn(os: seq<VertexId>, cs: seq<Option<FaceId>>)
    requires |cs| == |os|
    ensures Chosen(os, cs) <= Members(os)
    decreases |os|
  {
    if |os| > 0 {
      ChosenIn(os[1..], cs[1..]);
    }
  }

  /** Distinct allocated orphans, each with no choice or an active face as its choice. */
  ghost predicate Rehomable(h: Hull, os: seq<VertexId>, cs: seq<Option<FaceId>>) {
    && |cs| == |os| && Distinct(os)
    && (forall i | 0 <= i < |os| :: os[i] in h.vertices)
    && (forall i | 0 <= i < |cs| :: cs[i].Some? ==> cs[i].value in h.faces)
  }

  /** `r` differs from `h` at most in the points and the conflict lists. */
  ghost predicate ListsAndPointsOnly(h: Hull, r: Hull) {
    && r.faces.Keys == h.faces.Keys
    && (forall g | g in h.faces :: r.faces[g] == h.faces[g].(conflictList := r.faces[g].conflictList))
    && r.edges == h.edges && r.faceList == h.faceList && r.vertexList == h.vertexList
    && r.tolerance == h.tolerance && r.iterations == h.iterations
  }

  /** Each orphan with a choice is filed under it at its old position; the others are freed. */
  ghost predicate PointsRehomed(h: Hull, r: Hull, os: seq<VertexId>, cs: seq<Option<FaceId>>)
    requires |cs| == |os| && forall i | 0 <= i < |os| :: os[i] in h.vertices
  {
    forall i | 0 <= i < |os| ::
      if cs[i].Some? then os[i] in r.vertices && r.vertices[os[i]] == Vertex(h.vertices[os[i]].position, cs[i])
      else os[i] !in r.vertices
  }

  /** Each face's list holds the orphans that chose it, in reverse order, in front of what it held. */
  ghost predicate ListsRehomed(h: Hull, r: Hull, os: seq<VertexId>, cs: seq<Option<FaceId>>)
    requires |cs| == |os| && r.faces.Keys == h.faces.Keys
  {
    forall g | g in h.faces :: r.faces[g].conflictList == Reverse(ChosenFor(os, cs, g)) + h.faces[g].conflictList
  }

  /** Over a consistent graph with loose orphans, a consistent graph gaining exactly the orphans with a choice. */
  ghost predicate GraphRehomed(h: Hull, r: Hull, os: seq<VertexId>, cs: seq<Option<FaceId>>)
    requires |cs| == |os|
  {
    Consistent(h) && (forall i | 0 <= i < |os| :: Loose(h, os[i])) ==>
      Consistent(r) && Pending(r) == Pending(h) + Chosen(os, cs)
  }

  /**
   * What filing the orphans `os` by the choices `cs` leaves: the faces, edges, lists and scalars
   * as they were apart from the conflict lists, every other point untouched, and for rehomable
   * orphans the three outcomes above.
   */
  ghost predicate Rehomed(h: Hull, r: Hull, os: seq<VertexId>, cs: seq<Option<FaceId>>)
    requires |cs| == |os|
  {
    && ListsAndPointsOnly(h, r)
    && r.vertices.Keys <= h.vertices.Keys
    && (forall u | u in h.vertices && u !in os :: u in r.vertices && r.vertices[u] == h.vertices[u])
    && (Rehomable(h, os, cs) ==>
          && PointsRehomed(h, r, os, cs)
          && ListsRehomed(h, r, os, cs)
          && GraphRehomed(h, r, os, cs))
  }

  /**
   * The loop over the saved conflict points: each goes to the front of the list of the face it
   * chose and names that face, or is freed when it chose none.
   */
  function RefileOrphans(h: Hull, os: seq<VertexId>, cs: seq<Option<FaceId>>): (r: Hull)
    requires |cs| == |os|
    ensures Rehomed(h, r, os, cs)
    decreases |os|
  {
    if |os| == 0 then h
    else
      var h1 := Rehome(h, os[0], cs[0]);
      var r := RefileOrphans(h1, os[1..], cs[1..]);
      RehomedStep(h, h1, r, os, cs);
      r
  }

  /** One orphan: filed under its choice, or freed when it has none. */
  function Rehome(h: Hull, v: VertexId, c: Option<FaceId>): (r: Hull)
    ensures ListsAndPointsOnly(h, r)
    ensures forall u | u in h.vertices && u != v :: u in r.vertices && r.vertices[u] == h.vertices[u]
    ensures r.vertices.Keys <= h.vertices.Keys + {v}
    ensures v in h.vertices && (c.Some? ==> c.value in h.faces) ==>
      && (c.Some? ==> v in r.vertices && r.vertices[v] == Vertex(h.vertices[v].position, c))
      && (c.None? ==> v !in r.vertices)
      && (forall g | g in h.faces :: r.faces[g].conflictList == (if c == Some(g) then [v] else []) + h.faces[g].conflictList)
      && (Consistent(h) && Loose(h, v) ==>
            && Consistent(r)
            && Pending(r) == Pending(h) + (if c.Some? then {v} else {})
            && forall u | Loose(h, u) && u != v :: Loose(r, u))
  {
    match c
    case Some(f) => if v in h.vertices && f in h.faces then Refile(h, v, f) else h
    case None => Drop(h, v)
  }

  lemma RehomedStep(h: Hull, h1: Hull, r: Hull, os: seq<VertexId>, cs: seq<Option<FaceId>>)
    requires |cs| == |os| > 0
    requires h1 == Rehome(h, os[0], cs[0])
    requires Rehomed(h1, r, os[1..], cs[1..])
    ensures Rehomed(h, r, os, cs)
  {
    forall u | u in h.vertices && u !in os ensures u in r.vertices && r.vertices[u] == h.vertices[u] {
      assert u != os[0] && u !in os[1..];
    }
    if Rehomable(h, os, cs) {
      DistinctTail(os);
      assert Rehomable(h1, os[1..], cs[1..]) by {
        forall i | 0 <= i < |os| - 1 ensures os[1..][i] in h1.vertices {
          assert os[1..][i] == os[i + 1] && os[i + 1] != os[0];
        }
      }
      RehomedPoints(h, h1, r, os, cs);
      RehomedLists(h, h1, r, os, cs);
      RehomedPending(h, h1, r, os, cs);
    }
  }

  lemma RehomedPoints(h: Hull, h1: Hull, r: Hull, os: seq<VertexId>, cs: seq<Option<FaceId>>)
    requires |cs| == |os| > 0 && Rehomable(h, os, cs) && os[0] !in os[1..]
    requires h1 == Rehome(h, os[0], cs[0])
    requires Rehomable(h1, os[1..], cs[1..]) && PointsRehomed(h1, r, os[1..], cs[1..])
    requires forall u | u in h1.vertices && u !in os[1..] :: u in r.vertices && r.vertices[u] == h1.vertices[u]
    requires r.vertices.Keys <= h1.vertices.Keys
    ensures PointsRehomed(h, r, os, cs)
  {
    forall i | 0 < i < |os|
      ensures if cs[i].Some? then os[i] in r.vertices && r.vertices[os[i]] == Vertex(h.vertices[os[i]].position, cs[i])
              else os[i] !in r.vertices
    {
      assert os[1..][i - 1] == os[i] && cs[1..][i - 1] == cs[i];
      assert os[i] != os[0];
    }
  }

  lemma RehomedLists(h: Hull, h1: Hull, r: Hull, os: seq<VertexId>, cs: seq<Option<FaceId>>)
    requires |cs| == |os| > 0 && h1.faces.Keys == h.faces.Keys
    requires forall g | g in h.faces :: h1.faces[g].conflictList == (if cs[0] == Some(g) then [os[0]] else []) + h.faces[g].conflictList
    requires r.faces.Keys == h1.faces.Keys && ListsRehomed(h1, r, os[1..], cs[1..])
    ensures r.faces.Keys == h.faces.Keys && ListsRehomed(h, r, os, cs)
  {
    forall g | g in h.faces
      ensures r.faces[g].conflictList == Reverse(ChosenFor(os, cs, g)) + h.faces[g].conflictList
    {
      var x := if cs[0] == Some(g) then [os[0]] else [];
      var before, rest := h.faces[g].conflictList, Reverse(ChosenFor(os[1..], cs[1..], g));
      assert r.faces[g].conflictList == rest + (x + before);
      ChosenForCons(os, cs, g);
      assert rest + (x + before) == (rest + x) + before;
    }
  }

  lemma ChosenForCons(os: seq<VertexId>, cs: seq<Option<FaceId>>, g: FaceId)
    requires |cs| == |os| > 0
    ensures Reverse(ChosenFor(os, cs, g)) == Reverse(ChosenFor(os[1..], cs[1..], g)) + (if cs[0] == Some(g) then [os[0]] else [])
  {
    var rest := ChosenFor(os[1..], cs[1..], g);
    if cs[0] == Some(g) {
      ReverseCons(os[0], rest);
      assert ChosenFor(os, cs, g) == [os[0]] + rest;
    } else {
      assert ChosenFor(os, cs, g) == rest;
    }
  }

  lemma RehomedPending(h: Hull, h1: Hull, r: Hull, os: seq<VertexId>, cs: seq<Option<FaceId>>)
    requires |cs| == |os| > 0 && Rehomable(h, os, cs) && os[0] !in os[1..]
    requires h1 == Rehome(h, os[0], cs[0])
    requires GraphRehomed(h1, r, os[1..], cs[1..])
    ensures GraphRehomed(h, r, os, cs)
  {
    if Consistent(h) && (forall i | 0 <= i < |os| :: Loose(h, os[i])) {
      assert Loose(h, os[0]);
      forall i | 0 <= i < |os| - 1 ensures Loose(h1, os[1..][i]) {
        assert os[1..][i] == os[i + 1] && Loose(h, os[i + 1]);
      }
    }
  }

  // ---------------------------------------------------------------------------------------------
  // The cone of new faces.

  /** The horizon is not empty and starts at allocated points other than the eye: what saving and joining its tails dereferences. */
  predicate HorizonUsable(h: Hull, eye: VertexId, hs: seq<EdgeId>) {
    && |hs| > 0
    && forall i | 0 <= i < |hs| :: TailOf(h, hs[i]).Some? && TailOf(h, hs[i]).value in h.vertices && TailOf(h, hs[i]).value != eye
  }

  /** The saved horizon vertices: the tail of each horizon edge. */
  function HorizonTails(h: Hull, hs: seq<EdgeId>): (vs: seq<VertexId>)
    requires forall i | 0 <= i < |hs| :: TailOf(h, hs[i]).Some?
    ensures |vs| == |hs| && forall i | 0 <= i < |hs| :: vs[i] == TailOf(h, hs[i]).value
  {
    seq(|hs|, i requires 0 <= i < |hs| => TailOf(h, hs[i]).value)
  }

  /** The position after `i` on a ring of `n`: the next one, or the first after the last. */
  function RingNext(i: nat, n: nat): (j: nat)
    requires i < n
    ensures j < n && (j == i + 1 || (i == n - 1 && j == 0))
  {
    if i + 1 < n then i + 1 else 0
  }

  /** The triangles joining the apex `v` to each pair of consecutive horizon vertices, closing the ring. */
  function Fan(v: VertexId, vs: seq<VertexId>): (ts: seq<Corners>)
    ensures |ts| == |vs|
  {
    seq(|vs|, i requires 0 <= i < |vs| => Corners(v, vs[i], vs[RingNext(i, |vs|)]))
  }

  /**
   * Over a closed horizon each triangle of the cone runs from the apex along one horizon edge:
   * from the edge's tail to its head.
   */
  lemma FanClosesHorizon(h: Hull, v: VertexId, hs: seq<EdgeId>)
    requires IsCycle(h, hs) && forall i | 0 <= i < |hs| :: TailOf(h, hs[i]).Some?
    ensures forall i | 0 <= i < |hs| ::
      var t := Fan(v, HorizonTails(h, hs))[i];
      t.a == v && Some(t.b) == TailOf(h, hs[i]) && Some(t.c) == HeadOf(h, hs[i])
  {
    var ts := Fan(v, HorizonTails(h, hs));
    forall i | 0 <= i < |hs| ensures ts[i].a == v && Some(ts[i].b) == TailOf(h, hs[i]) && Some(ts[i].c) == HeadOf(h, hs[i]) {
      var j := RingNext(i, |hs|);
      assert Links(h, hs[i], hs[j]);
    }
  }

  /** Every corner of the cone is allocated when the apex and the horizon tails are. */
  lemma FanCornersIn(vertices: map<VertexId, Vertex>, v: VertexId, vs: seq<VertexId>)
    requires v in vertices && forall i | 0 <= i < |vs| :: vs[i] in vertices
    ensures CornersIn(vertices, Fan(v, vs))
  {
    var ts := Fan(v, vs);
    forall t | t in ts ensures t.a in vertices && t.b in vertices && t.c in vertices {
      var i :| 0 <= i < |ts| && ts[i] == t;
      assert vs[RingNext(i, |vs|)] in vertices;
    }
  }

  // ---------------------------------------------------------------------------------------------
  // AddNewFaces.

  /** What `AddNewFaces` leaves: the grown hull, the new faces in the order added, and the orphans in the order saved. */
  datatype Expanded = Expanded(hull: Hull, newFaces: seq<FaceId>, orphans: seq<VertexId>)

  /** The points once the eye is freed and `v` added as a hull vertex at its position. */
  function SwappedPoints(h: Hull, eye: VertexId, v: VertexId): map<VertexId, Vertex>
    requires eye in h.vertices
  {
    (h.vertices - {eye})[v := Vertex(h.vertices[eye].position, None)]
  }

  /**
   * `h2` is `h` with the eye taken off its conflict list and freed and `v` added as a hull vertex
   * at the eye's position: every other point, every face apart from that one list, the edges,
   * the face list and the scalars as they were.
   */
  ghost predicate EyeSwapped(h: Hull, eye: VertexId, h2: Hull, v: VertexId)
    requires EyeFiled(h, eye)
  {
    && (v == eye || v !in h.vertices)
    && h2.vertices == SwappedPoints(h, eye, v)
    && h2.vertexList == [v] + h.vertexList
    && h2.faces.Keys == h.faces.Keys
    && (forall g | g in h.faces :: h2.faces[g] == h.faces[g].(conflictList := h2.faces[g].conflictList))
    && h2.edges == h.edges && h2.faceList == h.faceList
    && h2.tolerance == h.tolerance && h2.iterations == h.iterations
    && Pending(h2) == Pending(h) - {eye}
    && (Consistent(h) ==>
          && Consistent(h2)
          && forall g | g in h.faces :: h2.faces[g].conflictList == Without(h.faces[g].conflictList, eye))
  }

  /** The first two steps: the eye leaves the conflict graph and comes back as a hull vertex. */
  method SwapEye(h: Hull, eye: VertexId) returns (h2: Hull, v: VertexId)
    requires EyeFiled(h, eye)
    ensures EyeSwapped(h, eye, h2, v)
  {
    var h1 := RemoveEye(h, eye);
    var added := AddVertex(h1, h.vertices[eye].position);
    h2, v := added.0, added.1;
    EyeSwappedFrom(h, eye, h1, h2, v);
  }

  /** Removing the eye and adding a vertex at its position make the swap. */
  lemma EyeSwappedFrom(h: Hull, eye: VertexId, h1: Hull, h2: Hull, v: VertexId)
    requires EyeFiled(h, eye)
    requires h1.vertices == h.vertices - {eye}
    requires Pending(h1) == Pending(h) - {eye}
    requires Consistent(h) ==> Consistent(h1)
    requires h1.faces.Keys == h.faces.Keys
    requires var f := h.vertices[eye].conflictFace.value;
      && h1.faces[f] == h.faces[f].(conflictList := Without(h.faces[f].conflictList, eye))
      && forall g | g in h.faces && g != f :: h1.faces[g] == h.faces[g]
    requires h1 == h.(vertices := h1.vertices, faces := h1.faces)
    requires v !in h1.vertices
    requires h2.vertices == h1.vertices[v := Vertex(h.vertices[eye].position, None)]
    requires h2.vertexList == [v] + h1.vertexList
    requires h2.(vertices := h1.vertices, vertexList := h1.vertexList) == h1
    requires Pending(h2) == Pending(h1)
    requires Consistent(h1) ==> Consistent(h2)
    ensures EyeSwapped(h, eye, h2, v)
  {
    if Consistent(h) {
      EyeOnlyThere(h, eye);
    }
  }

  /** The last step: each orphan is filed by the selection rule among the new faces, or freed. */
  method FileOrphans(h: Hull, nfs: seq<FaceId>, os: seq<VertexId>) returns (r: Hull)
    requires AllActive(h, nfs)
    ensures Rehomed(h, r, os, Choices(h, nfs, Positions(h, os)))
  {
    r := RefileOrphans(h, os, Choices(h, nfs, Positions(h, os)));
  }

  /**
   * Over a consistent conflict graph the grown graph stays consistent and loses at least the
   * eye, and the first hull vertex sits at the eye's position.
   */
  ghost predicate GraphGrown(h: Hull, eye: VertexId, g: Hull)
    requires EyeFiled(h, eye)
  {
    && Consistent(g)
    && Pending(g) <= Pending(h) - {eye}
    && |g.vertexList| > 0 && g.vertexList[0] in g.vertices
    && g.vertices[g.vertexList[0]] == Vertex(h.vertices[eye].position, None)
  }

  /** The faces are the new ones and the old ones not marked visible, which keep everything but the eye. */
  ghost predicate FacesGrown(h: Hull, eye: VertexId, g: Hull, nfs: seq<FaceId>) {
    && AllActive(g, nfs)
    && (forall f :: f in g.faces <==> f in nfs || (f in h.faces && h.faces[f].mark == Invisible))
    && (forall f | f in h.faces && h.faces[f].mark == Invisible ::
          f !in nfs && g.faces[f] == h.faces[f].(conflictList := Without(h.faces[f].conflictList, eye)))
  }

  /**
   * The orphans are, each once, the pending points other than the eye filed under a visible
   * face; each is filed under the new face the selection rule picks for it, or freed when there
   * is none; and every other pending point stays as it was.
   */
  ghost predicate OrphansGrown(h: Hull, eye: VertexId, g: Hull, nfs: seq<FaceId>, os: seq<VertexId>)
    requires AllActive(g, nfs)
  {
    && Distinct(os)
    && (forall v :: v in os <==> v != eye && OrphanOf(h, h.faceList, v))
    && (forall i | 0 <= i < |os| ::
          var c := BestFace(g, nfs, PositionOf(h, os[i]));
          if c.Some? then os[i] in g.vertices && g.vertices[os[i]].conflictFace == c
          else os[i] !in g.vertices)
    && (forall v | v in Pending(h) && v != eye && v !in os :: v in g.vertices && g.vertices[v] == h.vertices[v])
  }

  /** What `AddNewFaces` promises over a consistent conflict graph. */
  ghost predicate Grown(h: Hull, eye: VertexId, r: Expanded)
    requires EyeFiled(h, eye)
  {
    && GraphGrown(h, eye, r.hull)
    && FacesGrown(h, eye, r.hull, r.newFaces)
    && OrphansGrown(h, eye, r.hull, r.newFaces, r.orphans)
  }

  /** The four stages of `AddNewFaces` as their contracts describe them. */
  ghost predicate Staged(h: Hull, eye: VertexId, h2: Hull, v: VertexId, h3: Hull, os: seq<VertexId>, h4: Hull, nfs: seq<FaceId>, r: Hull)
    requires EyeFiled(h, eye)
  {
    && EyeSwapped(h, eye, h2, v)
    && VisibleRemoved(h2, h2.faceList, h3, os)
    && FacesAdded(h3, h4, nfs) && h4.vertices == h3.vertices && h4.vertexList == h3.vertexList && ConflictsKept(h3, h4)
    && AllActive(h4, nfs)
    && Rehomed(h4, r, os, Choices(h4, nfs, Positions(h4, os)))
  }

  /**
   * `AddNewFaces(eye)`: the eye leaves its conflict list and is freed, a hull vertex is added at
   * its position, the faces marked visible are removed with their conflict points set aside,
   * one triangle per horizon edge joins the new vertex to the saved horizon tails, and each
   * point set aside is filed under the new face it is farthest above, or freed.
   */
  method AddNewFaces(h: Hull, k: Kernel, eye: VertexId, hs: seq<EdgeId>) returns (r: Expanded)
    requires EyeFiled(h, eye) && HorizonUsable(h, eye, hs)
    ensures |r.newFaces| == |hs| && Distinct(r.newFaces) && AllActive(r.hull, r.newFaces)
    ensures |r.hull.vertexList| == |h.vertexList| + 1 && r.hull.vertexList[1..] == h.vertexList
    ensures r.hull.tolerance == h.tolerance && r.hull.iterations == h.iterations
    ensures Consistent(h) ==> Grown(h, eye, r)
    ensures Coned(h, k, eye, hs, r)
  {
    var h2, v, h3, os, hv := ClearVisible(h, eye, hs);
    var cone := AddFaces(h3, k, Fan(v, hv));
    var h4, nfs := cone.0, cone.1;
    var g := FileOrphans(h4, nfs, os);
    if Consistent(h) {
      GrownFrom(h, eye, h2, v, h3, os, h4, nfs, g);
    }
    r := Expanded(g, nfs, os);
    ConeBuilt(h, k, eye, hs, h2, v, h3, h4, g, nfs);
  }

  /**
   * The new faces are the cone over the horizon: face `i` is the triangle from the new hull
   * vertex along the `i`-th horizon edge, from its saved tail to the next saved tail, over the
   * points as they stand once the eye is swapped.
   */
  ghost predicate Coned(h: Hull, k: Kernel, eye: VertexId, hs: seq<EdgeId>, r: Expanded)
    requires EyeFiled(h, eye) && HorizonUsable(h, eye, hs)
  {
    && |r.hull.vertexList| > 0 && |r.newFaces| == |hs|
    && var v := r.hull.vertexList[0];
    && forall i | 0 <= i < |hs| :: TriangleFace(r.hull, k, r.newFaces[i], Fan(v, HorizonTails(h, hs))[i], SwappedPoints(h, eye, v))
  }

  /** The cone the stages of `AddNewFaces` build is the one `Coned` describes. */
  lemma ConeBuilt(h: Hull, k: Kernel, eye: VertexId, hs: seq<EdgeId>, h2: Hull, v: VertexId, h3: Hull, h4: Hull, g: Hull, nfs: seq<FaceId>)
    requires EyeFiled(h, eye) && HorizonUsable(h, eye, hs)
    requires EyeSwapped(h, eye, h2, v) && PointsKept(h2, h3)
    requires |nfs| == |hs| && h4.vertexList == h3.vertexList
    requires forall i | 0 <= i < |hs| :: TriangleFace(h4, k, nfs[i], Fan(v, HorizonTails(h, hs))[i], h3.vertices)
    requires ListsAndPointsOnly(h4, g)
    ensures Coned(h, k, eye, hs, Expanded(g, nfs, []))
  {
    var ts := Fan(v, HorizonTails(h, hs));
    assert g.vertexList[0] == v;
    forall i | 0 <= i < |hs| ensures TriangleFace(g, k, nfs[i], ts[i], SwappedPoints(h, eye, v)) {
      TriangleFaceMoved(h4, k, nfs[i], ts[i], h3.vertices, h2.vertices);
      TriangleFaceRelisted(h4, g, k, nfs[i], ts[i], h2.vertices);
    }
  }

  /**
   * The first stages of `AddNewFaces`: the horizon tails are saved, the eye is swapped for a
   * hull vertex, and the faces marked visible are removed, leaving every corner of the cone
   * allocated.
   */
  method ClearVisible(h: Hull, eye: VertexId, hs: seq<EdgeId>)
    returns (h2: Hull, v: VertexId, h3: Hull, os: seq<VertexId>, hv: seq<VertexId>)
    requires EyeFiled(h, eye) && HorizonUsable(h, eye, hs)
    ensures EyeSwapped(h, eye, h2, v) && VisibleRemoved(h2, h2.faceList, h3, os)
    ensures hv == HorizonTails(h, hs) && CornersIn(h3.vertices, Fan(v, hv))
  {
    hv := HorizonTails(h, hs);
    h2, v := SwapEye(h, eye);
    var cleared := RemoveVisible(h2, h2.faceList);
    h3, os := cleared.0, cleared.1;
    FanCornersIn(h3.vertices, v, hv);
  }

  /** The stages of `AddNewFaces` compose to what it promises. */
  lemma GrownFrom(h: Hull, eye: VertexId, h2: Hull, v: VertexId, h3: Hull, os: seq<VertexId>, h4: Hull, nfs: seq<FaceId>, r: Hull)
    requires EyeFiled(h, eye) && Consistent(h)
    requires Staged(h, eye, h2, v, h3, os, h4, nfs, r)
    ensures Grown(h, eye, Expanded(r, nfs, os))
  {
    StagedOrphans(h, eye, h2, v, h3, os, h4, nfs, r);
    StagedGraph(h, eye, h2, v, h3, os, h4, nfs, r);
    StagedFaces(h, eye, h2, v, h3, os, h4, nfs, r);
    StagedPoints(h, eye, h2, v, h3, os, h4, nfs, r);
  }

  /** The orphans are rehomable and loose when they are filed. */
  lemma StagedOrphans(h: Hull, eye: VertexId, h2: Hull, v: VertexId, h3: Hull, os: seq<VertexId>, h4: Hull, nfs: seq<FaceId>, r: Hull)
    requires EyeFiled(h, eye) && Consistent(h)
    requires Staged(h, eye, h2, v, h3, os, h4, nfs, r)
    ensures Consistent(h2) && Consistent(h3) && Consistent(h4)
    ensures Rehomable(h4, os, Choices(h4, nfs, Positions(h4, os)))
    ensures forall i | 0 <= i < |os| :: Loose(h4, os[i])
    ensures forall i | 0 <= i < |os| :: Choices(h4, nfs, Positions(h4, os))[i].Some? ==> Choices(h4, nfs, Positions(h4, os))[i].value in nfs
  {
    assert Consistent(h2) && Consistent(h3) && Consistent(h4);
    OrphansStayLoose(h3, h4, nfs, os);
    ChoicesAmongNew(h4, nfs, Positions(h4, os));
  }

  lemma StagedGraph(h: Hull, eye: VertexId, h2: Hull, v: VertexId, h3: Hull, os: seq<VertexId>, h4: Hull, nfs: seq<FaceId>, r: Hull)
    requires EyeFiled(h, eye) && Consistent(h)
    requires Staged(h, eye, h2, v, h3, os, h4, nfs, r)
    requires Consistent(h3) && Consistent(h4)
    requires Rehomable(h4, os, Choices(h4, nfs, Positions(h4, os)))
    requires forall i | 0 <= i < |os| :: Loose(h4, os[i])
    ensures GraphGrown(h, eye, r)
  {
    var cs := Choices(h4, nfs, Positions(h4, os));
    ChosenIn(os, cs);
    GrownPending(h, eye, h2, h3, h4, r, os, cs);
    GrownApex(h, eye, h2, v, h3, os, h4, r, cs);
  }

  lemma StagedFaces(h: Hull, eye: VertexId, h2: Hull, v: VertexId, h3: Hull, os: seq<VertexId>, h4: Hull, nfs: seq<FaceId>, r: Hull)
    requires EyeFiled(h, eye) && Consistent(h)
    requires Staged(h, eye, h2, v, h3, os, h4, nfs, r)
    requires Rehomable(h4, os, Choices(h4, nfs, Positions(h4, os)))
    requires forall i | 0 <= i < |os| :: Choices(h4, nfs, Positions(h4, os))[i].Some? ==> Choices(h4, nfs, Positions(h4, os))[i].value in nfs
    ensures FacesGrown(h, eye, r, nfs)
  {
    GrownFaces(h, eye, h2, h3, os, h4, nfs, r, Choices(h4, nfs, Positions(h4, os)));
  }

  lemma StagedPoints(h: Hull, eye: VertexId, h2: Hull, v: VertexId, h3: Hull, os: seq<VertexId>, h4: Hull, nfs: seq<FaceId>, r: Hull)
    requires EyeFiled(h, eye) && Consistent(h)
    requires Staged(h, eye, h2, v, h3, os, h4, nfs, r)
    requires Consistent(h2)
    requires Rehomable(h4, os, Choices(h4, nfs, Positions(h4, os)))
    ensures AllActive(r, nfs)
    ensures OrphansGrown(h, eye, r, nfs, os)
  {
    GrownOrphans(h, eye, h2, v, os);
    GrownChoices(h, eye, h2, v, h3, os, h4, nfs, r);
    GrownOthers(h, eye, h2, v, h3, os, h4, r);
  }

  /** Adding faces with empty conflict lists leaves loose points loose. */
  lemma OrphansStayLoose(h3: Hull, h4: Hull, nfs: seq<FaceId>, os: seq<VertexId>)
    requires FacesAdded(h3, h4, nfs) && h4.vertices == h3.vertices && h4.vertexList == h3.vertexList
    requires forall v | v in os :: Loose(h3, v)
    ensures forall i | 0 <= i < |os| :: Loose(h4, os[i])
  {
    forall i | 0 <= i < |os| ensures Loose(h4, os[i]) {
      assert Loose(h3, os[i]);
    }
  }

  /** The selection rule only ever picks one of the faces it chooses among. */
  lemma ChoicesAmongNew(h: Hull, nfs: seq<FaceId>, ps: seq<Vec3>)
    requires AllActive(h, nfs)
    ensures forall i | 0 <= i < |ps| :: Choices(h, nfs, ps)[i].Some? ==> Choices(h, nfs, ps)[i].value in nfs
  {
    forall i | 0 <= i < |ps| && Choices(h, nfs, ps)[i].Some? ensures Choices(h, nfs, ps)[i].value in nfs {
      BestFaceIsFarthest(h, nfs, ps[i]);
    }
  }

  lemma GrownPending(h: Hull, eye: VertexId, h2: Hull, h3: Hull, h4: Hull, r: Hull, os: seq<VertexId>, cs: seq<Option<FaceId>>)
    requires |cs| == |os|
    requires Pending(h2) == Pending(h) - {eye}
    requires Pending(h3) == Pending(h2) - Members(os)
    requires Pending(h4) == Pending(h3)
    requires Pending(r) == Pending(h4) + Chosen(os, cs)
    requires forall v | v in os :: v in Pending(h2)
    requires Chosen(os, cs) <= Members(os)
    ensures Pending(r) <= Pending(h) - {eye}
  {
  }

  lemma GrownApex(h: Hull, eye: VertexId, h2: Hull, v: VertexId, h3: Hull, os: seq<VertexId>, h4: Hull, r: Hull, cs: seq<Option<FaceId>>)
    requires EyeFiled(h, eye) && |cs| == |os|
    requires h2.vertexList == [v] + h.vertexList && v in h2.vertices
    requires h2.vertices[v] == Vertex(h.vertices[eye].position, None)
    requires PointsKept(h2, h3) && Consistent(h3)
    requires forall u | u in os :: Loose(h3, u)
    requires h4.vertices == h3.vertices && h4.vertexList == h3.vertexList
    requires r.vertexList == h4.vertexList
    requires forall u | u in h4.vertices && u !in os :: u in r.vertices && r.vertices[u] == h4.vertices[u]
    ensures |r.vertexList| > 0 && r.vertexList[0] in r.vertices
    ensures r.vertices[r.vertexList[0]] == Vertex(h.vertices[eye].position, None)
  {
    assert h3.vertexList[0] == v;
    assert forall u | u in os :: u !in h3.vertexList;
  }

  /** A face no orphan chose gains nothing. */
  lemma {:induction false} ChosenForNone(os: seq<VertexId>, cs: seq<Option<FaceId>>, g: FaceId)
    requires |cs| == |os| && forall i | 0 <= i < |cs| :: cs[i] != Some(g)
    ensures ChosenFor(os, cs, g) == []
    decreases |os|
  {
    if |os| > 0 {
      assert forall i | 0 <= i < |cs| - 1 :: cs[1..][i] == cs[i + 1];
      ChosenForNone(os[1..], cs[1..], g);
    }
  }

  lemma GrownFaces(h: Hull, eye: VertexId, h2: Hull, h3: Hull, os: seq<VertexId>, h4: Hull, nfs: seq<FaceId>, r: Hull, cs: seq<Option<FaceId>>)
    requires FacesListed(h) && h2.faceList == h.faceList && |cs| == |os|
    requires h2.faces.Keys == h.faces.Keys
    requires forall g | g in h.faces :: h2.faces[g] == h.faces[g].(conflictList := Without(h.faces[g].conflictList, eye))
    requires forall g :: g in h3.faces <==> g in h2.faces && !(g in h2.faceList && h2.faces[g].mark == Visible)
    requires forall g | g in h3.faces :: h3.faces[g] == h2.faces[g]
    requires FacesAdded(h3, h4, nfs)
    requires ListsAndPointsOnly(h4, r) && ListsRehomed(h4, r, os, cs)
    requires forall i | 0 <= i < |cs| :: cs[i].Some? ==> cs[i].value in nfs
    ensures AllActive(r, nfs)
    ensures forall f :: f in r.faces <==> f in nfs || (f in h.faces && h.faces[f].mark == Invisible)
    ensures forall f | f in h.faces && h.faces[f].mark == Invisible ::
      f !in nfs && r.faces[f] == h.faces[f].(conflictList := Without(h.faces[f].conflictList, eye))
  {
    forall f | f in h.faces && h.faces[f].mark == Invisible
      ensures f !in nfs && r.faces[f] == h.faces[f].(conflictList := Without(h.faces[f].conflictList, eye))
    {
      assert f in h2.faces && h2.faces[f].mark == Invisible;
      assert f in h3.faces && h3.faces[f] == h2.faces[f];
      assert f !in nfs && h4.faces[f] == h3.faces[f];
      ChosenForNone(os, cs, f);
      assert r.faces[f].conflictList == h4.faces[f].conflictList;
    }
  }

  lemma GrownOrphans(h: Hull, eye: VertexId, h2: Hull, v: VertexId, os: seq<VertexId>)
    requires EyeFiled(h, eye) && EyeSwapped(h, eye, h2, v) && Consistent(h2)
    requires forall u :: u in os <==> OrphanOf(h2, h2.faceList, u)
    ensures forall u :: u in os <==> u != eye && OrphanOf(h, h.faceList, u)
  {
    forall u ensures OrphanOf(h2, h2.faceList, u) <==> u != eye && OrphanOf(h, h.faceList, u) {
      if u in Pending(h2) || (u != eye && u in Pending(h)) {
        assert u != eye && u != v && h2.vertices[u] == h.vertices[u];
      }
    }
  }

  lemma GrownChoices(h: Hull, eye: VertexId, h2: Hull, v: VertexId, h3: Hull, os: seq<VertexId>, h4: Hull, nfs: seq<FaceId>, r: Hull)
    requires EyeFiled(h, eye) && EyeSwapped(h, eye, h2, v)
    requires forall u | u in os :: u in Pending(h2)
    requires PointsKept(h2, h3) && h4.vertices == h3.vertices
    requires AllActive(h4, nfs) && AllActive(r, nfs) && r.tolerance == h4.tolerance
    requires forall i | 0 <= i < |nfs| :: r.faces[nfs[i]].plane == h4.faces[nfs[i]].plane
    requires forall i | 0 <= i < |os| :: os[i] in h4.vertices
    requires PointsRehomed(h4, r, os, Choices(h4, nfs, Positions(h4, os)))
    ensures forall i | 0 <= i < |os| ::
      var c := BestFace(r, nfs, PositionOf(h, os[i]));
      if c.Some? then os[i] in r.vertices && r.vertices[os[i]].conflictFace == c
      else os[i] !in r.vertices
  {
    var cs := Choices(h4, nfs, Positions(h4, os));
    forall i | 0 <= i < |os|
      ensures var c := BestFace(r, nfs, PositionOf(h, os[i]));
        if c.Some? then os[i] in r.vertices && r.vertices[os[i]].conflictFace == c
        else os[i] !in r.vertices
    {
      var u := os[i];
      assert u in Pending(h2) && u != v && u != eye;
      assert PositionOf(h4, u) == PositionOf(h, u);
      BestFaceFrame(h4, r, nfs, PositionOf(h, u));
      assert cs[i] == BestFace(h4, nfs, PositionOf(h, u));
    }
  }

  lemma GrownOthers(h: Hull, eye: VertexId, h2: Hull, v: VertexId, h3: Hull, os: seq<VertexId>, h4: Hull, r: Hull)
    requires EyeFiled(h, eye) && EyeSwapped(h, eye, h2, v)
    requires PointsKept(h2, h3) && Pending(h3) == Pending(h2) - Members(os)
    requires forall u | u in Pending(h3) :: h3.vertices[u].conflictFace == h2.vertices[u].conflictFace
    requires h4.vertices == h3.vertices
    requires forall u | u in h4.vertices && u !in os :: u in r.vertices && r.vertices[u] == h4.vertices[u]
    ensures forall u | u in Pending(h) && u != eye && u !in os :: u in r.vertices && r.vertices[u] == h.vertices[u]
  {
    forall u | u in Pending(h) && u != eye && u !in os ensures u in r.vertices && r.vertices[u] == h.vertices[u] {
      assert u in Pending(h2) && u != v;
      assert u in Pending(h3);
    }
  }
}
