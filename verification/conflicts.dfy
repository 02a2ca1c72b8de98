/**
 * The conflict graph: which face each outside point is filed under. Points are filed with the
 * builder's one selection rule (the first face, in list order, that attains the largest distance
 * above the tolerance), and the next point to add is the farthest conflict point.
 */
module Conflicts {
  import opened Options
  import opened Geometry
  import opened Sequences
  import opened Scan
  import opened Mesh

  /** Every face of `fs` is active. */
  predicate AllActive(h: Hull, fs: seq<FaceId>) {
    forall i | 0 <= i < |fs| :: fs[i] in h.faces
  }

  /** Signed distance of `p` to each face of `fs`, in order. */
  function FaceDistances(h: Hull, fs: seq<FaceId>, p: Vec3): (xs: seq<real>)
    requires AllActive(h, fs)
    ensures |xs| == |fs|
    ensures forall i | 0 <= i < |fs| :: xs[i] == Distance(p, h.faces[fs[i]].plane)
  {
    seq(|fs|, i requires 0 <= i < |fs| => Distance(p, h.faces[fs[i]].plane))
  }

  /**
   * The face a point is filed under: the first face of `fs` whose distance to `p` is maximal and
   * strictly above the tolerance, or None when `p` is within the tolerance of every face.
   */
  function BestFace(h: Hull, fs: seq<FaceId>, p: Vec3): (r: Option<FaceId>)
    requires AllActive(h, fs)
    ensures r.None? <==> forall i | 0 <= i < |fs| :: Distance(p, h.faces[fs[i]].plane) <= h.tolerance
    ensures r.Some? ==> exists i | 0 <= i < |fs| :: fs[i] == r.value && IsFirstMaxAbove(FaceDistances(h, fs, p), {}, h.tolerance, i)
  {
    var xs := FaceDistances(h, fs, p);
    match ArgMaxAbove(xs, {}, h.tolerance)
    case None => None
    case Some(i) => Some(fs[i])
  }

  /** The chosen face is on the list, above the tolerance, and at least as far as any face of the list. */
  lemma BestFaceIsFarthest(h: Hull, fs: seq<FaceId>, p: Vec3)
    requires AllActive(h, fs) && BestFace(h, fs, p).Some?
    ensures var f := BestFace(h, fs, p).value;
      && f in fs
      && Distance(p, h.faces[f].plane) > h.tolerance
      && forall i | 0 <= i < |fs| :: Distance(p, h.faces[fs[i]].plane) <= Distance(p, h.faces[f].plane)
  {
    var xs := FaceDistances(h, fs, p);
    var i :| 0 <= i < |fs| && fs[i] == BestFace(h, fs, p).value && IsFirstMaxAbove(xs, {}, h.tolerance, i);
    assert xs[i] == Distance(p, h.faces[fs[i]].plane);
  }

  /** The selection only looks at the planes of the listed faces and the tolerance. */
  lemma BestFaceFrame(h: Hull, r: Hull, fs: seq<FaceId>, p: Vec3)
    requires AllActive(h, fs) && AllActive(r, fs) && r.tolerance == h.tolerance
    requires forall i | 0 <= i < |fs| :: r.faces[fs[i]].plane == h.faces[fs[i]].plane
    ensures BestFace(r, fs, p) == BestFace(h, fs, p)
  {
    assert FaceDistances(r, fs, p) == FaceDistances(h, fs, p);
  }

  // ---------------------------------------------------------------------------------------------
  // Filing, re-filing and dropping a point.

  /** A point that is allocated but neither a listed hull vertex nor on any conflict list. */
  ghost predicate Loose(h: Hull, v: VertexId) {
    && v in h.vertices
    && h.vertices[v].conflictFace.None?
    && v !in h.vertexList
    && forall f | f in h.faces :: v !in h.faces[f].conflictList
  }

  /** `PushFront` of `v` onto the conflict list of `f`, and `v.conflictFace = f`. */
  function Refile(h: Hull, v: VertexId, f: FaceId): (r: Hull)
    requires v in h.vertices && f in h.faces
    ensures Pending(r) == Pending(h) + {v}
    ensures Consistent(h) && Loose(h, v) ==> Consistent(r)
    ensures r.faces.Keys == h.faces.Keys && r.vertices.Keys == h.vertices.Keys
    ensures r.faces[f].conflictList == [v] + h.faces[f].conflictList
    ensures forall g | g in h.faces && g != f :: r.faces[g] == h.faces[g]
    ensures forall g | g in h.faces :: r.faces[g] == h.faces[g].(conflictList := r.faces[g].conflictList)
    ensures forall u | u in h.vertices && u != v :: r.vertices[u] == h.vertices[u]
    ensures r.vertices[v] == Vertex(h.vertices[v].position, Some(f))
    ensures r.edges == h.edges && r.vertexList == h.vertexList && r.faceList == h.faceList
    ensures r.tolerance == h.tolerance && r.iterations == h.iterations
  {
    var face := h.faces[f];
    var r := h.(vertices := h.vertices[v := Vertex(h.vertices[v].position, Some(f))],
                faces := h.faces[f := face.(conflictList := [v] + face.conflictList)]);
    RefileConsistent(h, r, v, f);
    r
  }

  lemma RefileConsistent(h: Hull, r: Hull, v: VertexId, f: FaceId)
    requires v in h.vertices && f in h.faces
    requires r == h.(vertices := h.vertices[v := Vertex(h.vertices[v].position, Some(f))],
                     faces := h.faces[f := h.faces[f].(conflictList := [v] + h.faces[f].conflictList)])
    ensures Pending(r) == Pending(h) + {v}
    ensures Consistent(h) && Loose(h, v) ==> Consistent(r)
  {
    if Consistent(h) && Loose(h, v) {
      forall g, j | g in r.faces && 0 <= j < |r.faces[g].conflictList|
        ensures r.faces[g].conflictList[j] in r.vertices
        ensures r.vertices[r.faces[g].conflictList[j]].conflictFace == Some(g)
      {
        if g == f && j > 0 {
          assert r.faces[g].conflictList[j] == h.faces[f].conflictList[j - 1];
        }
      }
      forall g | g in r.faces ensures Distinct(r.faces[g].conflictList) {
        if g == f {
          var s := r.faces[f].conflictList;
          forall i, j | 0 <= i < j < |s| ensures s[i] != s[j] {
            if i == 0 {
              assert s[j] == h.faces[f].conflictList[j - 1];
            } else {
              assert s[i] == h.faces[f].conflictList[i - 1] && s[j] == h.faces[f].conflictList[j - 1];
            }
          }
        }
      }
    }
  }

  /** `FreeVertex` of a point that is on no list. */
  function Drop(h: Hull, v: VertexId): (r: Hull)
    ensures Pending(r) == Pending(h) - {v}
    ensures Consistent(h) && Loose(h, v) ==> Consistent(r)
    ensures r.vertices == h.vertices - {v}
    ensures r == h.(vertices := r.vertices)
  {
    var r := h.(vertices := h.vertices - {v});
    assert Consistent(h) && Loose(h, v) ==> Consistent(r);
    r
  }

  // ---------------------------------------------------------------------------------------------
  // The eye point.

  /** A conflict point together with the face whose list holds it. */
  datatype Candidate = Candidate(v: VertexId, f: FaceId)

  /** The conflict points of the faces of `fs`: face by face, each list head first. */
  function CandidatesOf(h: Hull, fs: seq<FaceId>): (cs: seq<Candidate>)
    requires AllActive(h, fs)
    decreases |fs|
  {
    if |fs| == 0 then []
    else
      var list := h.faces[fs[0]].conflictList;
      seq(|list|, j requires 0 <= j < |list| => Candidate(list[j], fs[0])) + CandidatesOf(h, fs[1..])
  }

  lemma {:induction false} CandidatesMembers(h: Hull, fs: seq<FaceId>)
    requires AllActive(h, fs)
    ensures forall c :: c in CandidatesOf(h, fs) <==> c.f in fs && c.v in h.faces[c.f].conflictList
    decreases |fs|
  {
    if |fs| > 0 {
      CandidatesMembers(h, fs[1..]);
      var list := h.faces[fs[0]].conflictList;
      var head := seq(|list|, j requires 0 <= j < |list| => Candidate(list[j], fs[0]));
      forall c ensures c in CandidatesOf(h, fs) <==> c.f in fs && c.v in h.faces[c.f].conflictList {
        if c.f == fs[0] && c.v in list {
          var j :| 0 <= j < |list| && list[j] == c.v;
          assert head[j] == c;
        }
        if c in head {
          var j :| 0 <= j < |head| && head[j] == c;
        }
        if c.f in fs && c.f != fs[0] {
          var i :| 0 <= i < |fs| && fs[i] == c.f;
          assert fs[1..][i - 1] == c.f;
        }
      }
    }
  }

  /** Distance of a conflict point to the plane of the face it is filed under. */
  function CandidateDistance(h: Hull, c: Candidate): real
    requires c.f in h.faces
  {
    Distance(PositionOf(h, c.v), h.faces[c.f].plane)
  }

  /** The distance of each conflict point of `fs` to its face. */
  function CandidateDistances(h: Hull, cs: seq<Candidate>): (xs: seq<real>)
    requires forall i | 0 <= i < |cs| :: cs[i].f in h.faces
    ensures |xs| == |cs|
    ensures forall i | 0 <= i < |cs| :: xs[i] == CandidateDistance(h, cs[i])
  {
    seq(|cs|, i requires 0 <= i < |cs| => CandidateDistance(h, cs[i]))
  }

  /**
   * `FindEyeVertex`: over the face list, and within each face over its conflict list, the first
   * point whose distance to its face is maximal and strictly above the tolerance.
   */
  function FindEyeVertex(h: Hull): (r: Option<Candidate>)
    requires AllActive(h, h.faceList)
    ensures r.None? <==> forall f, v | f in h.faceList && v in h.faces[f].conflictList ::
      CandidateDistance(h, Candidate(v, f)) <= h.tolerance
    ensures r.Some? ==>
      && r.value.f in h.faceList && r.value.v in h.faces[r.value.f].conflictList
      && CandidateDistance(h, r.value) > h.tolerance
      && forall f, v | f in h.faceList && v in h.faces[f].conflictList ::
           CandidateDistance(h, Candidate(v, f)) <= CandidateDistance(h, r.value)
  {
    var cs := CandidatesOf(h, h.faceList);
    CandidatesMembers(h, h.faceList);
    var xs := CandidateDistances(h, cs);
    var r := match ArgMaxAbove(xs, {}, h.tolerance)
      case None => None
      case Some(i) => Some(cs[i]);
    EyeBounds(h, cs, xs, r);
    r
  }

  lemma EyeBounds(h: Hull, cs: seq<Candidate>, xs: seq<real>, r: Option<Candidate>)
    requires AllActive(h, h.faceList)
    requires cs == CandidatesOf(h, h.faceList)
    requires forall c :: c in cs <==> c.f in h.faceList && c.v in h.faces[c.f].conflictList
    requires xs == CandidateDistances(h, cs)
    requires r == match ArgMaxAbove(xs, {}, h.tolerance) case None => None case Some(i) => Some(cs[i])
    ensures r.None? <==> forall f, v | f in h.faceList && v in h.faces[f].conflictList ::
      CandidateDistance(h, Candidate(v, f)) <= h.tolerance
    ensures r.Some? ==>
      && r.value in cs
      && CandidateDistance(h, r.value) > h.tolerance
      && forall f, v | f in h.faceList && v in h.faces[f].conflictList ::
           CandidateDistance(h, Candidate(v, f)) <= CandidateDistance(h, r.value)
  {
    forall f, v | f in h.faceList && v in h.faces[f].conflictList
      ensures exists i | 0 <= i < |cs| :: cs[i] == Candidate(v, f)
    {
      assert Candidate(v, f) in cs;
    }
  }

  /** Under a consistent conflict graph the eye is a pending point filed under the face it was found on. */
  lemma EyeIsPending(h: Hull)
    requires Consistent(h) && FindEyeVertex(h).Some?
    ensures var c := FindEyeVertex(h).value;
      c.v in Pending(h) && h.vertices[c.v].conflictFace == Some(c.f)
  {
    var c := FindEyeVertex(h).value;
    var j :| 0 <= j < |h.faces[c.f].conflictList| && h.faces[c.f].conflictList[j] == c.v;
  }
}
