/**
 * `FindHorizon`: every listed face is marked visible or invisible from the eye, the edges of the
 * visible faces whose neighbour is invisible are collected, and the collected edges are put in
 * order so that each one ends where the next one starts.
 */
module Horizon {
  import opened Options
  import opened Geometry
  import opened Sequences
  import opened Mesh
  import opened Conflicts
  import opened Validation

  // ---------------------------------------------------------------------------------------------
  // Marking.

  /** The eye is more than the tolerance above the plane of `f`. */
  predicate VisibleFrom(h: Hull, eye: Vec3, f: FaceId)
    requires f in h.faces
  {
    Distance(eye, h.faces[f].plane) > h.tolerance
  }

  /** `r` is `h` with at most the face marks changed. */
  ghost predicate MarksOnly(h: Hull, r: Hull) {
    && r == h.(faces := r.faces)
    && r.faces.Keys == h.faces.Keys
    && forall g | g in h.faces :: r.faces[g] == h.faces[g].(mark := r.faces[g].mark)
  }

  /** The mark a face gets from `eye`. */
  function MarkOf(h: Hull, eye: Vec3, f: FaceId): Mark
    requires f in h.faces
  {
    if VisibleFrom(h, eye, f) then Visible else Invisible
  }

  /**
   * The marking loop over the faces of `fs`: each face is marked visible exactly when the eye is
   * more than the tolerance above its plane; faces off the list keep their mark.
   */
  function MarkFaces(h: Hull, eye: Vec3, fs: seq<FaceId>): (r: Hull)
    requires AllActive(h, fs)
    ensures MarksOnly(h, r)
    ensures forall g | g in fs :: r.faces[g].mark == MarkOf(h, eye, g)
    ensures forall g | g in h.faces && g !in fs :: r.faces[g].mark == h.faces[g].mark
    decreases |fs|
  {
    if |fs| == 0 then h
    else
      var f := fs[0];
      var h1 := h.(faces := h.faces[f := h.faces[f].(mark := MarkOf(h, eye, f))]);
      assert AllActive(h1, fs[1..]) && MarksOnly(h, h1);
      var r := MarkFaces(h1, eye, fs[1..]);
      MarkStep(h, h1, r, eye, fs);
      r
  }

  lemma MarkStep(h: Hull, h1: Hull, r: Hull, eye: Vec3, fs: seq<FaceId>)
    requires |fs| > 0 && AllActive(h, fs)
    requires h1 == h.(faces := h.faces[fs[0] := h.faces[fs[0]].(mark := MarkOf(h, eye, fs[0]))])
    requires MarksOnly(h, h1) && MarksOnly(h1, r)
    requires forall g | g in fs[1..] :: r.faces[g].mark == MarkOf(h1, eye, g)
    requires forall g | g in h1.faces && g !in fs[1..] :: r.faces[g].mark == h1.faces[g].mark
    ensures MarksOnly(h, r)
    ensures forall g | g in fs :: r.faces[g].mark == MarkOf(h, eye, g)
    ensures forall g | g in h.faces && g !in fs :: r.faces[g].mark == h.faces[g].mark
  {
    MarksOnlyTransitive(h, h1, r);
    forall g | g in fs ensures r.faces[g].mark == MarkOf(h, eye, g) {
      if g != fs[0] {
        assert g in fs[1..];
        assert MarkOf(h1, eye, g) == MarkOf(h, eye, g);
      }
    }
  }

  lemma MarksOnlyTransitive(h: Hull, m: Hull, r: Hull)
    requires MarksOnly(h, m) && MarksOnly(m, r)
    ensures MarksOnly(h, r)
  {
  }

  /** Marks leave the conflict graph, every boundary loop and every plane alone. */
  lemma MarksKeep(h: Hull, r: Hull)
    requires MarksOnly(h, r)
    ensures Pending(r) == Pending(h)
    ensures Consistent(h) ==> Consistent(r)
    ensures forall g | g in h.faces :: FaceLoop(r, g) == FaceLoop(h, g) && r.faces[g].plane == h.faces[g].plane
  {
    ConflictsUnchanged(h, r);
    MarksKeepLoops(h, r);
  }

  lemma MarksKeepLoops(h: Hull, r: Hull)
    requires MarksOnly(h, r)
    ensures forall g | g in h.faces :: FaceLoop(r, g) == FaceLoop(h, g)
  {
    forall g | g in h.faces ensures FaceLoop(r, g) == FaceLoop(h, g) {
      assert r.faces[g].edge == h.faces[g].edge;
    }
  }

  // ---------------------------------------------------------------------------------------------
  // Collecting the horizon.

  /** `x`'s twin lies on a face marked invisible. */
  predicate FacesInvisible(h: Hull, x: EdgeId) {
    match TwinFaceOf(h, x)
    case None => false
    case Some(g) => h.faces[g].mark == Invisible
  }

  /** The edges of the loop `c` whose twin lies on an invisible face, in loop order. */
  function HorizonOfLoop(h: Hull, c: seq<EdgeId>): (r: seq<EdgeId>)
    ensures forall x :: x in r <==> x in c && FacesInvisible(h, x)
    ensures Distinct(c) ==> Distinct(r)
    decreases |c|
  {
    if |c| == 0 then []
    else
      var rest := HorizonOfLoop(h, c[1..]);
      assert Distinct(c) ==> Distinct(c[1..]) && c[0] !in c[1..] by {
        if Distinct(c) {
          DistinctTail(c);
        }
      }
      if FacesInvisible(h, c[0]) then [c[0]] + rest else rest
  }

  /** A face marked visible whose boundary closes. */
  predicate Expanding(h: Hull, f: FaceId) {
    f in h.faces && h.faces[f].mark == Visible && FaceLoop(h, f).Some?
  }

  /**
   * The collection loop over the faces of `fs`: for each face marked visible, its boundary
   * edges whose twin's face is marked invisible, in list order and loop order. A boundary that
   * does not close, which `qhHull` would walk without end, contributes nothing.
   */
  function CollectHorizon(h: Hull, fs: seq<FaceId>): (r: seq<EdgeId>)
    ensures forall x :: x in r <==> exists i | 0 <= i < |fs| ::
      Expanding(h, fs[i]) && x in FaceLoop(h, fs[i]).value && FacesInvisible(h, x)
    decreases |fs|
  {
    if |fs| == 0 then []
    else
      var here := if Expanding(h, fs[0]) then HorizonOfLoop(h, FaceLoop(h, fs[0]).value) else [];
      var rest := CollectHorizon(h, fs[1..]);
      CollectStep(h, fs, here, rest);
      here + rest
  }

  lemma CollectStep(h: Hull, fs: seq<FaceId>, here: seq<EdgeId>, rest: seq<EdgeId>)
    requires |fs| > 0
    requires here == if Expanding(h, fs[0]) then HorizonOfLoop(h, FaceLoop(h, fs[0]).value) else []
    requires forall x :: x in rest <==> exists i | 0 <= i < |fs[1..]| ::
      Expanding(h, fs[1..][i]) && x in FaceLoop(h, fs[1..][i]).value && FacesInvisible(h, x)
    ensures forall x :: x in here + rest <==> exists i | 0 <= i < |fs| ::
      Expanding(h, fs[i]) && x in FaceLoop(h, fs[i]).value && FacesInvisible(h, x)
  {
    forall x ensures x in here + rest <==> exists i | 0 <= i < |fs| ::
      Expanding(h, fs[i]) && x in FaceLoop(h, fs[i]).value && FacesInvisible(h, x)
    {
      if x in rest {
        var i :| 0 <= i < |fs[1..]| && Expanding(h, fs[1..][i]) && x in FaceLoop(h, fs[1..][i]).value && FacesInvisible(h, x);
        assert fs[i + 1] == fs[1..][i];
      }
      if exists i | 0 <= i < |fs| :: Expanding(h, fs[i]) && x in FaceLoop(h, fs[i]).value && FacesInvisible(h, x) {
        var i :| 0 <= i < |fs| && Expanding(h, fs[i]) && x in FaceLoop(h, fs[i]).value && FacesInvisible(h, x);
        if i > 0 {
          assert fs[1..][i - 1] == fs[i];
        }
      }
    }
  }

  /** `x` is an edge of a face marked visible whose twin lies on a face marked invisible. */
  ghost predicate HorizonEdge(h: Hull, x: EdgeId) {
    && x in h.edges
    && h.edges[x].face.Some? && h.edges[x].face.value in h.faces
    && h.faces[h.edges[x].face.value].mark == Visible
    && FacesInvisible(h, x)
  }

  /**
   * The part of the mesh invariant the horizon walk relies on: the face list holds the active
   * faces, each boundary closes over edges that name its face, and every edge lies on the
   * boundary of the face it names.
   */
  ghost predicate LoopsCover(h: Hull) {
    && FacesListed(h)
    && (forall f | f in h.faces :: FaceLoop(h, f).Some? && forall x | x in FaceLoop(h, f).value :: x in h.edges && h.edges[x].face == Some(f))
    && (forall x {:trigger OnOwnLoop(h, x)} | x in h.edges :: OnOwnLoop(h, x))
  }

  lemma WellFormedCovers(h: Hull, eps: real)
    requires WellFormed(h, eps)
    ensures LoopsCover(h)
  {
    forall f | f in h.faces ensures FaceLoop(h, f).Some? && forall x | x in FaceLoop(h, f).value :: x in h.edges && h.edges[x].face == Some(f) {
      assert FaceSound(h, f);
    }
  }

  lemma MarksKeepCover(h: Hull, m: Hull)
    requires LoopsCover(h) && MarksOnly(h, m)
    ensures LoopsCover(m)
  {
    MarksKeepLoops(h, m);
    assert FacesListed(m);
    MarksKeepBoundaries(h, m);
    MarksKeepOwnLoops(h, m);
  }

  lemma MarksKeepBoundaries(h: Hull, m: Hull)
    requires MarksOnly(h, m)
    requires forall g | g in h.faces :: FaceLoop(m, g) == FaceLoop(h, g)
    requires forall f | f in h.faces :: FaceLoop(h, f).Some? && forall x | x in FaceLoop(h, f).value :: x in h.edges && h.edges[x].face == Some(f)
    ensures forall f | f in m.faces :: FaceLoop(m, f).Some? && forall x | x in FaceLoop(m, f).value :: x in m.edges && m.edges[x].face == Some(f)
  {
  }

  lemma MarksKeepOwnLoops(h: Hull, m: Hull)
    requires MarksOnly(h, m)
    requires forall g | g in h.faces :: FaceLoop(m, g) == FaceLoop(h, g)
    requires forall x {:trigger OnOwnLoop(h, x)} | x in h.edges :: OnOwnLoop(h, x)
    ensures forall x {:trigger OnOwnLoop(m, x)} | x in m.edges :: OnOwnLoop(m, x)
  {
    forall x | x in m.edges ensures OnOwnLoop(m, x) {
      assert OnOwnLoop(h, x);
    }
  }

  /**
   * When every edge lies on the boundary of the listed face it names, the collected edges are
   * exactly the edges of visible faces whose twin's face is invisible.
   */
  lemma CollectHorizonExact(h: Hull)
    requires LoopsCover(h)
    ensures forall x :: x in CollectHorizon(h, h.faceList) <==> HorizonEdge(h, x)
  {
    var r := CollectHorizon(h, h.faceList);
    forall x ensures x in r <==> HorizonEdge(h, x) {
      if x in r {
        var i :| 0 <= i < |h.faceList| && Expanding(h, h.faceList[i]) && x in FaceLoop(h, h.faceList[i]).value && FacesInvisible(h, x);
      }
      if HorizonEdge(h, x) {
        assert OnOwnLoop(h, x);
        var f := h.edges[x].face.value;
        var i :| 0 <= i < |h.faceList| && h.faceList[i] == f;
        assert Expanding(h, h.faceList[i]);
      }
    }
  }

  /**
   * `FindHorizon`'s first two loops. The marks are the ones `MarkFaces` sets, so on a hull that
   * passes the mesh invariant the result holds exactly the edges of faces the eye sees whose
   * twin's face it does not see.
   */
  function FindHorizonEdges(h: Hull, eye: Vec3): (r: (Hull, seq<EdgeId>))
    requires AllActive(h, h.faceList)
    ensures MarksOnly(h, r.0)
    ensures r.1 == CollectHorizon(r.0, r.0.faceList)
  {
    var m := MarkFaces(h, eye, h.faceList);
    (m, CollectHorizon(m, m.faceList))
  }

  /** The edges of faces the eye sees whose twin's face it does not see. */
  ghost predicate SeenBoundary(h: Hull, eye: Vec3, x: EdgeId) {
    && x in h.edges
    && h.edges[x].face.Some? && h.edges[x].face.value in h.faces && VisibleFrom(h, eye, h.edges[x].face.value)
    && TwinFaceOf(h, x).Some? && !VisibleFrom(h, eye, TwinFaceOf(h, x).value)
  }

  /** Under the mesh invariant, the horizon is the visible/invisible boundary seen from the eye. */
  lemma FindHorizonEdgesExact(h: Hull, eps: real, eye: Vec3)
    requires WellFormed(h, eps)
    ensures AllActive(h, h.faceList)
    ensures forall x :: x in FindHorizonEdges(h, eye).1 <==> SeenBoundary(h, eye, x)
  {
    WellFormedCovers(h, eps);
    var found := FindHorizonEdges(h, eye);
    var m, hs := found.0, found.1;
    MarksKeepCover(h, m);
    CollectHorizonExact(m);
    MarkedBoundary(h, m, eye);
  }

  lemma MarkedBoundary(h: Hull, m: Hull, eye: Vec3)
    requires FacesListed(h) && MarksOnly(h, m)
    requires forall g | g in h.faceList :: m.faces[g].mark == MarkOf(h, eye, g)
    ensures forall x :: HorizonEdge(m, x) <==> SeenBoundary(h, eye, x)
  {
    forall x ensures HorizonEdge(m, x) <==> SeenBoundary(h, eye, x) {
      assert TwinFaceOf(m, x) == TwinFaceOf(h, x);
    }
  }

  // ---------------------------------------------------------------------------------------------
  // Ordering the horizon.

  /** Edge `a` ends where edge `b` starts: the twin of `a` has the tail of `b`. */
  predicate Links(h: Hull, a: EdgeId, b: EdgeId) {
    HeadOf(h, a).Some? && HeadOf(h, a) == TailOf(h, b)
  }

  /** `c` is a closed chain: each edge ends where the next starts, the last where the first starts. */
  ghost predicate IsCycle(h: Hull, c: seq<EdgeId>) {
    && |c| > 0
    && (forall i | 0 <= i < |c| - 1 :: Links(h, c[i], c[i + 1]))
    && Links(h, c[|c| - 1], c[0])
  }

  /** No two edges of `c` start at the same vertex. */
  ghost predicate TailsDistinct(h: Hull, c: seq<EdgeId>) {
    forall i, j | 0 <= i < j < |c| :: TailOf(h, c[i]) != TailOf(h, c[j])
  }

  /** The edges of `hs`, in some order, form one closed chain through distinct vertices. */
  ghost predicate ClosedChain(h: Hull, hs: seq<EdgeId>) {
    exists c: seq<EdgeId> :: IsCycle(h, c) && TailsDistinct(h, c) && multiset(c) == multiset(hs)
  }

  /** The first position from `j` on whose edge starts at `v`. */
  function FindLinked(h: Hull, r: seq<EdgeId>, v: Option<VertexId>, j: nat): (m: Option<nat>)
    requires j <= |r|
    ensures m.None? <==> forall p | j <= p < |r| :: TailOf(h, r[p]) != v
    ensures m.Some? ==>
      && j <= m.value < |r| && TailOf(h, r[m.value]) == v
      && forall p | j <= p < m.value :: TailOf(h, r[p]) != v
    decreases |r| - j
  {
    if j == |r| then None
    else if TailOf(h, r[j]) == v then Some(j)
    else FindLinked(h, r, v, j + 1)
  }

  function Swap(r: seq<EdgeId>, i: nat, j: nat): (s: seq<EdgeId>)
    requires i < |r| && j < |r|
    ensures |s| == |r| && s[i] == r[j] && s[j] == r[i]
    ensures forall p | 0 <= p < |r| && p != i && p != j :: s[p] == r[p]
    ensures multiset(s) == multiset(r)
  {
    r[i := r[j]][j := r[i]]
  }

  /**
   * The sorting loop from position `i` on: the edge starting where edge `i` ends is swapped
   * into position `i + 1`; when there is none, position `i + 1` is left as it is.
   */
  function SortFrom(h: Hull, r: seq<EdgeId>, i: nat): (s: seq<EdgeId>)
    requires i < |r|
    ensures multiset(s) == multiset(r) && |s| == |r|
    ensures forall t | 0 <= t <= i :: s[t] == r[t]
    decreases |r| - i
  {
    if i == |r| - 1 then r
    else
      match FindLinked(h, r, HeadOf(h, r[i]), i + 1)
      case None => SortFrom(h, r, i + 1)
      case Some(m) => SortFrom(h, Swap(r, i + 1, m), i + 1)
  }

  /**
   * The sort of `FindHorizon`. It only permutes the collected edges and keeps the first one in
   * place. An empty horizon, on which `qhHull`'s unsigned loop bound would wrap around, is
   * returned as it is.
   */
  function SortHorizon(h: Hull, hs: seq<EdgeId>): (r: seq<EdgeId>)
    ensures multiset(r) == multiset(hs) && |r| == |hs|
    ensures |hs| > 0 ==> r[0] == hs[0]
  {
    if |hs| == 0 then hs else SortFrom(h, hs, 0)
  }

  /** Edges starting at distinct vertices are distinct. */
  lemma TailsDistinctDistinct(h: Hull, c: seq<EdgeId>)
    requires TailsDistinct(h, c)
    ensures Distinct(c)
  {
  }

  /** Once the sorted prefix follows the chain `c`, the chain's next edge is found further on. */
  lemma LinkedAhead(h: Hull, r: seq<EdgeId>, c: seq<EdgeId>, i: nat)
    requires IsCycle(h, c) && TailsDistinct(h, c) && multiset(r) == multiset(c) && |r| == |c|
    requires i + 1 < |c| && forall t | 0 <= t <= i :: r[t] == c[t]
    ensures FindLinked(h, r, HeadOf(h, r[i]), i + 1).Some?
    ensures r[FindLinked(h, r, HeadOf(h, r[i]), i + 1).value] == c[i + 1]
  {
    TailsDistinctDistinct(h, c);
    assert c[i + 1] in multiset(r);
    var p :| 0 <= p < |r| && r[p] == c[i + 1];
    assert Links(h, c[i], c[i + 1]);
    assert TailOf(h, r[p]) == HeadOf(h, r[i]);
    var m := FindLinked(h, r, HeadOf(h, r[i]), i + 1).value;
    assert r[m] in multiset(c);
    var q :| 0 <= q < |c| && c[q] == r[m];
    assert TailOf(h, c[q]) == TailOf(h, c[i + 1]);
  }

  /** Sorting a permutation of a chain whose prefix is already in chain order yields the chain. */
  lemma {:induction false} SortFromChain(h: Hull, r: seq<EdgeId>, c: seq<EdgeId>, i: nat)
    requires IsCycle(h, c) && TailsDistinct(h, c) && multiset(r) == multiset(c) && |r| == |c|
    requires i < |c| && forall t | 0 <= t <= i :: r[t] == c[t]
    ensures SortFrom(h, r, i) == c
    decreases |r| - i
  {
    if i == |r| - 1 {
      assert r == c;
    } else {
      LinkedAhead(h, r, c, i);
      var m := FindLinked(h, r, HeadOf(h, r[i]), i + 1).value;
      SortFromChain(h, Swap(r, i + 1, m), c, i + 1);
    }
  }

  /** `c` turned to start at position `k`. */
  function Rotate(c: seq<EdgeId>, k: nat): (r: seq<EdgeId>)
    requires k < |c|
    ensures |r| == |c| && r[0] == c[k]
    ensures forall i | 0 <= i < |c| - k :: r[i] == c[k + i]
    ensures forall i | |c| - k <= i < |c| :: r[i] == c[i - (|c| - k)]
  {
    c[k..] + c[..k]
  }

  lemma RotateCycle(h: Hull, c: seq<EdgeId>, k: nat)
    requires IsCycle(h, c) && TailsDistinct(h, c) && k < |c|
    ensures IsCycle(h, Rotate(c, k)) && TailsDistinct(h, Rotate(c, k))
    ensures multiset(Rotate(c, k)) == multiset(c)
  {
    var r := Rotate(c, k);
    var n := |c|;
    assert c == c[..k] + c[k..];
    forall i | 0 <= i < n - 1 ensures Links(h, r[i], r[i + 1]) {
      if i == n - k - 1 {
        assert r[i] == c[n - 1] && r[i + 1] == c[0];
      } else if i < n - k - 1 {
        assert r[i] == c[k + i] && r[i + 1] == c[k + i + 1];
      } else {
        assert r[i] == c[i - (n - k)] && r[i + 1] == c[i + 1 - (n - k)];
      }
    }
    if k == 0 {
      assert r[n - 1] == c[n - 1];
    } else {
      assert r[n - 1] == c[k - 1];
    }
  }

  /**
   * When the collected edges form one closed chain through distinct vertices, the sort leaves
   * them in chain order: every edge ends where the next one starts, and the last where the first
   * starts.
   */
  lemma SortHorizonCloses(h: Hull, hs: seq<EdgeId>)
    requires ClosedChain(h, hs)
    ensures IsCycle(h, SortHorizon(h, hs))
  {
    var c: seq<EdgeId> :| IsCycle(h, c) && TailsDistinct(h, c) && multiset(c) == multiset(hs);
    assert hs[0] in multiset(c);
    var k :| 0 <= k < |c| && c[k] == hs[0];
    RotateCycle(h, c, k);
    SortFromChain(h, hs, Rotate(c, k), 0);
  }
}
