/**
 * Face merging keeps the half-edge invariant: removing the edge between two distinct faces of a
 * well-formed hull leaves a well-formed hull, and so do the merge loops built on that step. No
 * geometry is involved; the two boundaries are spliced into one loop and every other face is
 * left alone.
 */
module MergeInvariant {
  import opened Options
  import opened Geometry
  import opened Sequences
  import opened Mesh
  import opened Merge
  import opened Validation

  // ---------------------------------------------------------------------------------------------
  // Loops read from another edge.

  /** The loop `c` read from position `i` on. */
  function Rotate<T>(c: seq<T>, i: nat): (r: seq<T>)
    requires i < |c|
    ensures |r| == |c| && r[0] == c[i]
    ensures forall j | 0 <= j < |c| - i :: r[j] == c[i + j]
    ensures forall j | |c| - i <= j < |c| :: r[j] == c[j - (|c| - i)]
  {
    c[i..] + c[..i]
  }

  /** Reading a simple loop from another of its edges gives a simple loop over the same edges. */
  lemma RotateLoop(edges: map<EdgeId, HalfEdge>, c: seq<EdgeId>, i: nat)
    requires IsLoop(edges, c) && PrevInverse(edges, c) && i < |c|
    ensures IsLoop(edges, Rotate(c, i)) && PrevInverse(edges, Rotate(c, i))
    ensures forall x :: x in Rotate(c, i) <==> x in c
  {
    var r := Rotate(c, i);
    var n := |c|;
    forall j, l | 0 <= j < l < n ensures r[j] != r[l] {
      if l < n - i {
        assert r[j] == c[i + j] && r[l] == c[i + l];
      } else if j < n - i {
        assert r[j] == c[i + j] && r[l] == c[l - (n - i)];
      } else {
        assert r[j] == c[j - (n - i)] && r[l] == c[l - (n - i)];
      }
    }
    forall j | 0 <= j < n - 1 ensures edges[r[j]].next == Some(r[j + 1]) {
      if j + 1 < n - i {
        assert r[j] == c[i + j] && r[j + 1] == c[i + j + 1];
      } else if j + 1 == n - i {
        assert r[j] == c[n - 1] && r[j + 1] == c[0];
      } else {
        assert r[j] == c[j - (n - i)] && r[j + 1] == c[j + 1 - (n - i)];
      }
    }
    forall j | 0 < j < n ensures edges[r[j]].prev == Some(r[j - 1]) {
      if j < n - i {
        assert r[j] == c[i + j] && r[j - 1] == c[i + j - 1];
      } else if j == n - i {
        assert r[j] == c[0] && r[j - 1] == c[n - 1];
      } else {
        assert r[j] == c[j - (n - i)] && r[j - 1] == c[j - 1 - (n - i)];
      }
    }
    if i == 0 {
      assert r[n - 1] == c[n - 1];
    } else {
      assert r[n - 1] == c[i - 1];
    }
    forall x ensures x in r <==> x in c {
      if x in c {
        var j :| 0 <= j < n && c[j] == x;
        if j >= i {
          assert r[j - i] == x;
        } else {
          assert r[j + (n - i)] == x;
        }
      }
    }
  }

  // ---------------------------------------------------------------------------------------------
  // The two boundaries around the removed edge.

  /** In a well-formed hull a face's boundary holds exactly the half-edges that name the face. */
  lemma FaceMembers(h: Hull, eps: real, f: FaceId)
    requires WellFormed(h, eps) && f in h.faces
    ensures FaceLoop(h, f).Some?
    ensures forall x :: x in FaceLoop(h, f).value <==> x in h.edges && h.edges[x].face == Some(f)
  {
    assert FaceSound(h, f);
    var c := FaceLoop(h, f).value;
    forall x | x in h.edges && h.edges[x].face == Some(f) ensures x in c {
      assert OnOwnLoop(h, x);
    }
  }

  /** A square is never negative. */
  lemma SquareNonNegative(a: real)
    ensures a * a >= 0.0
  {
    if a < 0.0 {
      assert a * a == (-a) * (-a);
    }
  }

  /** A half-edge whose two ends are apart is not its own `next`. */
  lemma NoSelfLoop(h: Hull, eps: real, x: EdgeId)
    requires x in h.edges && EdgeSound(h, eps, x)
    ensures h.edges[x].next != Some(x)
  {
    var t := h.edges[x].twin.value;
    if h.edges[x].next == Some(x) {
      var p := h.vertices[h.edges[x].tail.value].position;
      assert h.edges[t].tail == h.edges[x].tail;
      SquareNonNegative(eps);
    }
  }

  /**
   * The loops `RemoveEdge(e)` splices: `rc`, the right boundary read from `e`, and `lc`, the left
   * boundary read from the twin, each a simple loop of at least two edges holding exactly the
   * half-edges of its face.
   */
  ghost predicate AroundEdge(h: Hull, e: EdgeId, rc: seq<EdgeId>, lc: seq<EdgeId>) {
    && CanRemove(h, e)
    && var t := h.edges[e].twin.value;
    && var right := h.edges[e].face.value;
    && var left := h.edges[t].face.value;
    && IsLoop(h.edges, rc) && PrevInverse(h.edges, rc) && |rc| >= 2 && rc[0] == e
    && IsLoop(h.edges, lc) && PrevInverse(h.edges, lc) && |lc| >= 2 && lc[0] == t
    && EdgeLoop(h.edges, t) == Some(lc)
    && (forall x :: x in rc <==> x in h.edges && h.edges[x].face == Some(right))
    && (forall x :: x in lc <==> x in h.edges && h.edges[x].face == Some(left))
  }

  /** The face `f` of edge `x`, read as a simple loop from `x`. */
  lemma LoopFrom(h: Hull, eps: real, x: EdgeId) returns (c: seq<EdgeId>)
    requires WellFormed(h, eps) && x in h.edges && h.edges[x].face.Some? && h.edges[x].face.value in h.faces
    ensures IsLoop(h.edges, c) && PrevInverse(h.edges, c) && |c| >= 2 && c[0] == x
    ensures EdgeLoop(h.edges, x) == Some(c)
    ensures forall y :: y in c <==> y in h.edges && h.edges[y].face == h.edges[x].face
  {
    var f := h.edges[x].face.value;
    FaceMembers(h, eps, f);
    assert FaceSound(h, f);
    var fc := FaceLoop(h, f).value;
    var i :| 0 <= i < |fc| && fc[i] == x;
    RotateLoop(h.edges, fc, i);
    c := Rotate(fc, i);
    LoopWalk(h.edges, c);
    assert EdgeSound(h, eps, x);
    NoSelfLoop(h, eps, x);
  }

  lemma AroundRemovable(h: Hull, eps: real, e: EdgeId) returns (rc: seq<EdgeId>, lc: seq<EdgeId>)
    requires WellFormed(h, eps) && CanRemove(h, e)
    ensures AroundEdge(h, e, rc, lc)
  {
    rc := LoopFrom(h, eps, e);
    lc := LoopFrom(h, eps, h.edges[e].twin.value);
  }

  // ---------------------------------------------------------------------------------------------
  // The half-edges after the splice.

  /** `m` is `edges` without `e` and `t`, with tails and twins kept and the left boundary `lc` renamed to `right`. */
  ghost predicate SplicedFields(edges: map<EdgeId, HalfEdge>, m: map<EdgeId, HalfEdge>, e: EdgeId, t: EdgeId, lc: seq<EdgeId>, right: FaceId) {
    && m.Keys == edges.Keys - {e, t}
    && (forall x | x in m :: m[x].tail == edges[x].tail && m[x].twin == edges[x].twin)
    && (forall x | x in m :: m[x].face == if x in lc then Some(right) else edges[x].face)
  }

  /** `m` joins `ep` to `tn` and `tp` to `en`, and keeps every other link of `edges`. */
  ghost predicate SplicedJoins(edges: map<EdgeId, HalfEdge>, m: map<EdgeId, HalfEdge>, ep: EdgeId, en: EdgeId, tp: EdgeId, tn: EdgeId) {
    && (forall x | x in m && x != ep && x != tp :: x in edges && m[x].next == edges[x].next)
    && (forall x | x in m && x != en && x != tn :: x in edges && m[x].prev == edges[x].prev)
    && ep in m && en in m && tp in m && tn in m
    && m[ep].next == Some(tn) && m[tp].next == Some(en)
    && m[tn].prev == Some(ep) && m[en].prev == Some(tp)
  }

  /**
   * The half-edges `m` that the splice of the loops `rc` (from the removed edge) and `lc` (from
   * its twin) leaves of `edges`: the fields as `SplicedFields` says, the links as `SplicedJoins`
   * says, and the merged boundary a simple loop linked both ways.
   */
  ghost predicate SplicedEdges(edges: map<EdgeId, HalfEdge>, m: map<EdgeId, HalfEdge>, rc: seq<EdgeId>, lc: seq<EdgeId>, right: FaceId)
    requires |rc| >= 2 && |lc| >= 2
  {
    && SplicedFields(edges, m, rc[0], lc[0], lc, right)
    && SplicedJoins(edges, m, rc[|rc| - 1], rc[1], lc[|lc| - 1], lc[1])
    && IsLoop(m, MergedLoop(rc, lc)) && PrevInverse(m, MergedLoop(rc, lc))
  }

  lemma SpliceFields(edges: map<EdgeId, HalfEdge>, lc: seq<EdgeId>, right: FaceId, e: EdgeId, t: EdgeId)
    requires e in edges && t in edges
    ensures SplicedFields(edges, Splice(SetFaces(edges, lc, right), e, t) - {e, t}, e, t, lc, right)
  {
  }

  /** A map with the splice's four joins, with `e` and `t` then dropped, has the joins `SplicedJoins` names. */
  lemma JoinsAfterDrop(m0: map<EdgeId, HalfEdge>, sp: map<EdgeId, HalfEdge>, e: EdgeId, t: EdgeId,
                       ep: EdgeId, en: EdgeId, tp: EdgeId, tn: EdgeId)
    requires sp.Keys == m0.Keys && ep in m0 && en in m0 && tp in m0 && tn in m0
    requires ep !in {e, t} && en !in {e, t} && tp !in {e, t} && tn !in {e, t}
    requires sp[ep].next == Some(tn) && sp[tn].prev == Some(ep)
    requires sp[tp].next == Some(en) && sp[en].prev == Some(tp)
    requires forall x | x in m0 && x != ep && x != tp :: sp[x].next == m0[x].next
    requires forall x | x in m0 && x != en && x != tn :: sp[x].prev == m0[x].prev
    ensures SplicedJoins(m0, sp - {e, t}, ep, en, tp, tn)
  {
  }

  /** The splice's four writes, with `e` and `t` then dropped, are the joins `SplicedJoins` names. */
  lemma SpliceJoinsAt(m0: map<EdgeId, HalfEdge>, e: EdgeId, t: EdgeId, ep: EdgeId, en: EdgeId, tp: EdgeId, tn: EdgeId)
    requires e in m0 && t in m0
    requires m0[e].prev == Some(ep) && m0[e].next == Some(en) && m0[t].prev == Some(tp) && m0[t].next == Some(tn)
    requires ep in m0 && en in m0 && tp in m0 && tn in m0
    requires ep !in {e, t} && en !in {e, t} && tp !in {e, t} && tn !in {e, t}
    requires ep != tp && en != tn
    ensures SplicedJoins(m0, Splice(m0, e, t) - {e, t}, ep, en, tp, tn)
  {
    SpliceEffect(m0, e, t);
    JoinsAfterDrop(m0, Splice(m0, e, t), e, t, ep, en, tp, tn);
  }

  /** Joins stated against one map hold against any map with the same keys and links. */
  lemma JoinsSameLinks(m0: map<EdgeId, HalfEdge>, edges: map<EdgeId, HalfEdge>, m: map<EdgeId, HalfEdge>,
                       ep: EdgeId, en: EdgeId, tp: EdgeId, tn: EdgeId)
    requires m0.Keys == edges.Keys
    requires forall x | x in edges :: m0[x].next == edges[x].next && m0[x].prev == edges[x].prev
    requires SplicedJoins(m0, m, ep, en, tp, tn)
    ensures SplicedJoins(edges, m, ep, en, tp, tn)
  {
  }

  lemma SpliceJoins(edges: map<EdgeId, HalfEdge>, rc: seq<EdgeId>, lc: seq<EdgeId>, right: FaceId)
    requires IsLoop(edges, rc) && PrevInverse(edges, rc) && |rc| >= 2
    requires IsLoop(edges, lc) && PrevInverse(edges, lc) && |lc| >= 2
    requires forall x | x in rc :: x !in lc
    ensures SplicedJoins(edges, Splice(SetFaces(edges, lc, right), rc[0], lc[0]) - {rc[0], lc[0]},
      rc[|rc| - 1], rc[1], lc[|lc| - 1], lc[1])
  {
    var e, t := rc[0], lc[0];
    var m0 := SetFaces(edges, lc, right);
    var ep, en, tp, tn := rc[|rc| - 1], rc[1], lc[|lc| - 1], lc[1];
    assert ep in rc && en in rc && tp in lc && tn in lc && e in rc && t in lc;
    assert ep != e && en != e && tp != t && tn != t;
    SpliceJoinsAt(m0, e, t, ep, en, tp, tn);
    JoinsSameLinks(m0, edges, Splice(m0, e, t) - {e, t}, ep, en, tp, tn);
  }

  /** Renaming the left boundary and splicing two disjoint simple loops gives `SplicedEdges`. */
  lemma SpliceLoops(edges: map<EdgeId, HalfEdge>, rc: seq<EdgeId>, lc: seq<EdgeId>, right: FaceId)
    requires IsLoop(edges, rc) && PrevInverse(edges, rc) && |rc| >= 2
    requires IsLoop(edges, lc) && PrevInverse(edges, lc) && |lc| >= 2
    requires forall x | x in rc :: x !in lc
    ensures SplicedEdges(edges, Splice(SetFaces(edges, lc, right), rc[0], lc[0]) - {rc[0], lc[0]}, rc, lc, right)
  {
    SpliceFields(edges, lc, right, rc[0], lc[0]);
    SpliceJoins(edges, rc, lc, right);
    SetFacesKeepsLoop(edges, rc, lc, right);
    SetFacesKeepsLoop(edges, lc, lc, right);
    SplicedLoop(SetFaces(edges, lc, right), rc[0], lc[0], rc, lc);
  }

  /** The half-edges of `Absorb(h, e)` are the splice of the two boundaries. */
  lemma AbsorbSpliced(h: Hull, e: EdgeId, rc: seq<EdgeId>, lc: seq<EdgeId>)
    requires AroundEdge(h, e, rc, lc)
    ensures SplicedEdges(h.edges, Absorb(h, e).edges, rc, lc, h.edges[e].face.value)
  {
    var t := h.edges[e].twin.value;
    var right := h.edges[e].face.value;
    assert Absorb(h, e).edges == Splice(SetFaces(h.edges, lc, right), e, t) - {e, t};
    assert forall x | x in rc :: x !in lc;
    SpliceLoops(h.edges, rc, lc, right);
  }

  /**
   * The pointers around the removed edge `e`, its twin `t` and their neighbours `ep`, `en`, `tp`
   * and `tn` in a linked mesh: paired twins, links both ways, and at the two places the splice
   * joins, the head of the earlier edge is the tail of the later one.
   */
  ghost predicate SpliceSite(edges: map<EdgeId, HalfEdge>, e: EdgeId, t: EdgeId, ep: EdgeId, en: EdgeId, tp: EdgeId, tn: EdgeId) {
    && e in edges && t in edges && ep in edges && en in edges && tp in edges && tn in edges
    && edges[e].twin == Some(t) && edges[t].twin == Some(e)
    && edges[e].prev == Some(ep) && edges[e].next == Some(en)
    && edges[t].prev == Some(tp) && edges[t].next == Some(tn)
    && edges[ep].next == Some(e) && edges[en].prev == Some(e)
    && edges[tp].next == Some(t) && edges[tn].prev == Some(t)
    && edges[ep].twin.Some? && edges[ep].twin.value in edges && edges[edges[ep].twin.value].tail == edges[tn].tail
    && edges[tp].twin.Some? && edges[tp].twin.value in edges && edges[edges[tp].twin.value].tail == edges[en].tail
  }

  lemma SpliceSiteOf(h: Hull, eps: real, e: EdgeId, rc: seq<EdgeId>, lc: seq<EdgeId>)
    requires EdgesSound(h, eps) && AroundEdge(h, e, rc, lc)
    ensures SpliceSite(h.edges, e, lc[0], rc[|rc| - 1], rc[1], lc[|lc| - 1], lc[1])
  {
    var t := h.edges[e].twin.value;
    var ep, en, tp, tn := rc[|rc| - 1], rc[1], lc[|lc| - 1], lc[1];
    assert EdgeSound(h, eps, ep) && EdgeSound(h, eps, tp);
    assert EdgeSound(h, eps, e) && EdgeSound(h, eps, t);
    assert h.edges[ep].next == Some(e) && h.edges[tp].next == Some(t);
    assert h.edges[e].next == Some(en) && h.edges[t].next == Some(tn);
  }

  /** After the splice a remaining half-edge keeps its twin, and its links run both ways and head to tail. */
  lemma SplicedEdgeLinked(h: Hull, r: Hull, x: EdgeId, lc: seq<EdgeId>, right: FaceId,
                          e: EdgeId, t: EdgeId, ep: EdgeId, en: EdgeId, tp: EdgeId, tn: EdgeId)
    requires x in h.edges && EdgeLinked(h, x)
    requires SpliceSite(h.edges, e, t, ep, en, tp, tn)
    requires SplicedFields(h.edges, r.edges, e, t, lc, right) && SplicedJoins(h.edges, r.edges, ep, en, tp, tn)
    requires r.vertices.Keys == h.vertices.Keys
    requires x in r.edges && r.edges[x].face.Some? && r.edges[x].face.value in r.faces
    ensures EdgeLinked(r, x)
  {
    var y := h.edges[x].twin.value;
    assert y != e && y != t;
    var n := h.edges[x].next.value;
    var p := h.edges[x].prev.value;
    if x != ep && x != tp {
      assert n != e && n != t;
      assert n != en && n != tn;
    }
    if x != en && x != tn {
      assert p != e && p != t;
      assert p != ep && p != tp;
    }
  }

  /** After the splice each remaining half-edge still meets the local conditions. */
  lemma SplicedEdgeSound(h: Hull, r: Hull, eps: real, e: EdgeId, rc: seq<EdgeId>, lc: seq<EdgeId>, x: EdgeId)
    requires EdgesSound(h, eps) && AroundEdge(h, e, rc, lc)
    requires SpliceSite(h.edges, e, lc[0], rc[|rc| - 1], rc[1], lc[|lc| - 1], lc[1])
    requires SplicedEdges(h.edges, r.edges, rc, lc, h.edges[e].face.value)
    requires r.vertices.Keys == h.vertices.Keys
    requires forall v | v in h.vertices :: r.vertices[v].position == h.vertices[v].position
    requires r.faces.Keys == h.faces.Keys - {h.edges[h.edges[e].twin.value].face.value}
    requires x in r.edges
    ensures EdgeSound(r, eps, x)
  {
    var t := h.edges[e].twin.value;
    var left := h.edges[t].face.value;
    assert EdgeSound(h, eps, x);
    assert r.edges[x].face.value in r.faces by {
      if x !in lc {
        assert h.edges[x].face != Some(left);
      }
    }
    SplicedEdgeLinked(h, r, x, lc, h.edges[e].face.value, e, t, rc[|rc| - 1], rc[1], lc[|lc| - 1], lc[1]);
  }

  lemma SplicedEdgesSound(h: Hull, r: Hull, eps: real, e: EdgeId, rc: seq<EdgeId>, lc: seq<EdgeId>)
    requires EdgesSound(h, eps) && AroundEdge(h, e, rc, lc)
    requires SplicedEdges(h.edges, r.edges, rc, lc, h.edges[e].face.value)
    requires r.vertices.Keys == h.vertices.Keys
    requires forall v | v in h.vertices :: r.vertices[v].position == h.vertices[v].position
    requires r.faces.Keys == h.faces.Keys - {h.edges[h.edges[e].twin.value].face.value}
    ensures EdgesSound(r, eps)
  {
    SpliceSiteOf(h, eps, e, rc, lc);
    forall x | x in r.edges ensures EdgeSound(r, eps, x) {
      SplicedEdgeSound(h, r, eps, e, rc, lc, x);
    }
  }

  // ---------------------------------------------------------------------------------------------
  // The boundaries after the splice.

  /** A face other than the two keeps its boundary, which avoids both spliced loops. */
  lemma OtherFaceSound(h: Hull, r: Hull, e: EdgeId, rc: seq<EdgeId>, lc: seq<EdgeId>, f: FaceId)
    requires AroundEdge(h, e, rc, lc) && SplicedEdges(h.edges, r.edges, rc, lc, h.edges[e].face.value)
    requires f in h.faces && FaceSound(h, f) && f in r.faces && r.faces[f].edge == h.faces[f].edge
    requires f != h.edges[e].face.value && f != h.edges[h.edges[e].twin.value].face.value
    ensures FaceSound(r, f) && FaceLoop(r, f) == FaceLoop(h, f)
  {
    var c := FaceLoop(h, f).value;
    var ep, en, tp, tn := rc[|rc| - 1], rc[1], lc[|lc| - 1], lc[1];
    assert ep in rc && en in rc && tp in lc && tn in lc && rc[0] in rc && lc[0] in lc;
    assert forall i | 0 <= i < |c| :: c[i] !in {ep, en, tp, tn, rc[0], lc[0]} && c[i] !in lc;
    LoopUntouched(h.edges, r.edges, c, rc[0], lc[0], lc, h.edges[e].face.value, ep, en, tp, tn);
    EdgeLoopShape(h.edges, h.faces[f].edge);
    LoopWalk(r.edges, c);
  }

  /** A loop that avoids the removed edges, the four joins and the left boundary keeps its links and its faces. */
  lemma LoopUntouched(edges: map<EdgeId, HalfEdge>, m: map<EdgeId, HalfEdge>, c: seq<EdgeId>, e: EdgeId, t: EdgeId,
                      lc: seq<EdgeId>, right: FaceId, ep: EdgeId, en: EdgeId, tp: EdgeId, tn: EdgeId)
    requires IsLoop(edges, c) && PrevInverse(edges, c)
    requires SplicedFields(edges, m, e, t, lc, right) && SplicedJoins(edges, m, ep, en, tp, tn)
    requires forall i | 0 <= i < |c| :: c[i] !in {ep, en, tp, tn, e, t} && c[i] !in lc
    ensures IsLoop(m, c) && PrevInverse(m, c)
    ensures forall i | 0 <= i < |c| :: m[c[i]].face == edges[c[i]].face
  {
  }

  /** The right face's boundary is the merged loop, every edge of which names it. */
  lemma RightFaceSound(h: Hull, r: Hull, e: EdgeId, rc: seq<EdgeId>, lc: seq<EdgeId>)
    requires AroundEdge(h, e, rc, lc) && SplicedEdges(h.edges, r.edges, rc, lc, h.edges[e].face.value)
    requires h.edges[e].face.value in r.faces && r.faces[h.edges[e].face.value].edge == rc[|rc| - 1]
    ensures FaceSound(r, h.edges[e].face.value)
    ensures FaceLoop(r, h.edges[e].face.value) == Some(MergedLoop(rc, lc))
  {
    var right := h.edges[e].face.value;
    var s := MergedLoop(rc, lc);
    assert forall x | x in rc :: x !in lc;
    MergedLoopShape(rc, lc);
    LoopWalk(r.edges, s);
    forall i | 0 <= i < |s| ensures r.edges[s[i]].face == Some(right) {
      if 0 < i < |lc| {
        assert s[i] in lc;
      } else if i == 0 {
        assert s[i] in rc;
      } else {
        assert s[i] == rc[i - |lc| + 1];
        assert s[i] in rc;
      }
    }
  }

  /** Every remaining half-edge lies on the boundary of the face it names. */
  lemma SplicedOnOwnLoop(h: Hull, r: Hull, e: EdgeId, rc: seq<EdgeId>, lc: seq<EdgeId>, x: EdgeId)
    requires AroundEdge(h, e, rc, lc) && SplicedEdges(h.edges, r.edges, rc, lc, h.edges[e].face.value)
    requires x in r.edges && OnOwnLoop(h, x)
    requires r.faces.Keys == h.faces.Keys - {h.edges[h.edges[e].twin.value].face.value}
    requires FaceLoop(r, h.edges[e].face.value) == Some(MergedLoop(rc, lc))
    requires var g := h.edges[x].face.value;
      g in r.faces && g != h.edges[e].face.value ==> FaceLoop(r, g) == FaceLoop(h, g)
    ensures OnOwnLoop(r, x)
  {
    var t := h.edges[e].twin.value;
    var right := h.edges[e].face.value;
    var left := h.edges[t].face.value;
    assert forall y | y in rc :: y !in lc;
    MergedLoopShape(rc, lc);
    var s := MergedLoop(rc, lc);
    if x in lc {
      var i :| 0 <= i < |lc| && lc[i] == x;
      assert i > 0 && s[i] == x;
    } else {
      var g := h.edges[x].face.value;
      assert g != left;
      if g == right {
        var i :| 0 <= i < |rc| && rc[i] == x;
        assert i > 0;
        if i == |rc| - 1 {
          assert s[0] == x;
        } else {
          assert s[i + |lc| - 1] == x;
        }
      }
    }
  }

  // ---------------------------------------------------------------------------------------------
  // Removing an edge keeps the invariant.

  /** The lists of the hull: the face list, the vertex list and every conflict list hold allocated elements. */
  ghost predicate ListsSound(h: Hull) {
    && FacesListed(h)
    && (forall i | 0 <= i < |h.vertexList| :: h.vertexList[i] in h.vertices)
    && (forall f, j | f in h.faces && 0 <= j < |h.faces[f].conflictList| :: h.faces[f].conflictList[j] in h.vertices)
  }

  /** Every face's boundary is a simple loop, linked both ways, of edges naming that face. */
  ghost predicate LoopsSound(h: Hull) {
    forall f | f in h.faces :: FaceSound(h, f)
  }

  /** Every half-edge lies on the boundary of the face it names. */
  ghost predicate OwnLoops(h: Hull) {
    forall x {:trigger OnOwnLoop(h, x)} | x in h.edges :: OnOwnLoop(h, x)
  }

  /** `WellFormed` is the conjunction of its four parts. */
  lemma WellFormedParts(h: Hull, eps: real)
    ensures WellFormed(h, eps) <==> ListsSound(h) && EdgesSound(h, eps) && LoopsSound(h) && OwnLoops(h)
  {
  }

  /** Every face keeps a sound boundary: the right one is the merged loop, the others are as they were. */
  lemma SplicedLoopsSound(h: Hull, r: Hull, e: EdgeId, rc: seq<EdgeId>, lc: seq<EdgeId>)
    requires LoopsSound(h) && AroundEdge(h, e, rc, lc) && SplicedEdges(h.edges, r.edges, rc, lc, h.edges[e].face.value)
    requires FaceEdgesKept(h, r, e, rc)
    ensures LoopsSound(r)
    ensures FaceLoop(r, h.edges[e].face.value) == Some(MergedLoop(rc, lc))
    ensures forall g | g in r.faces && g != h.edges[e].face.value :: FaceLoop(r, g) == FaceLoop(h, g)
  {
    RightFaceSound(h, r, e, rc, lc);
    OtherFacesSound(h, r, e, rc, lc);
    LoopsFromParts(r, h.edges[e].face.value);
  }

  /** The left face is gone, the right face starts at the edge before `e`, and every other face keeps its edge. */
  ghost predicate FaceEdgesKept(h: Hull, r: Hull, e: EdgeId, rc: seq<EdgeId>)
    requires CanRemove(h, e) && |rc| > 0
  {
    var right := h.edges[e].face.value;
    && r.faces.Keys == h.faces.Keys - {h.edges[h.edges[e].twin.value].face.value}
    && right in r.faces && r.faces[right].edge == rc[|rc| - 1]
    && (forall g | g in r.faces && g != right :: r.faces[g].edge == h.faces[g].edge)
  }

  /** What `RemoveEdge` does to the faces, read against the right boundary `rc`. */
  lemma FacesAfterAbsorb(h: Hull, r: Hull, e: EdgeId, rc: seq<EdgeId>, lc: seq<EdgeId>)
    requires AroundEdge(h, e, rc, lc)
    requires FacesAfterRemove(h, r, e, h.edges[e].twin.value, h.edges[e].face.value, h.edges[h.edges[e].twin.value].face.value)
    ensures FaceEdgesKept(h, r, e, rc)
  {
    assert h.edges[e].prev == Some(rc[|rc| - 1]);
  }

  lemma LoopsFromParts(r: Hull, right: FaceId)
    requires right in r.faces && FaceSound(r, right)
    requires forall g | g in r.faces && g != right :: FaceSound(r, g)
    ensures LoopsSound(r)
  {
  }

  /** Every face other than the two keeps its boundary. */
  lemma OtherFacesSound(h: Hull, r: Hull, e: EdgeId, rc: seq<EdgeId>, lc: seq<EdgeId>)
    requires LoopsSound(h) && AroundEdge(h, e, rc, lc) && SplicedEdges(h.edges, r.edges, rc, lc, h.edges[e].face.value)
    requires r.faces.Keys == h.faces.Keys - {h.edges[h.edges[e].twin.value].face.value}
    requires forall g | g in r.faces && g != h.edges[e].face.value :: r.faces[g].edge == h.faces[g].edge
    ensures forall g | g in r.faces && g != h.edges[e].face.value :: FaceSound(r, g) && FaceLoop(r, g) == FaceLoop(h, g)
  {
    forall g | g in r.faces && g != h.edges[e].face.value ensures FaceSound(r, g) && FaceLoop(r, g) == FaceLoop(h, g) {
      assert FaceSound(h, g);
      OtherFaceSound(h, r, e, rc, lc, g);
    }
  }

  /** Every remaining half-edge still lies on the boundary of the face it names. */
  lemma SplicedOwnLoops(h: Hull, r: Hull, e: EdgeId, rc: seq<EdgeId>, lc: seq<EdgeId>)
    requires OwnLoops(h) && AroundEdge(h, e, rc, lc) && SplicedEdges(h.edges, r.edges, rc, lc, h.edges[e].face.value)
    requires r.faces.Keys == h.faces.Keys - {h.edges[h.edges[e].twin.value].face.value}
    requires FaceLoop(r, h.edges[e].face.value) == Some(MergedLoop(rc, lc))
    requires forall g | g in r.faces && g != h.edges[e].face.value :: FaceLoop(r, g) == FaceLoop(h, g)
    ensures OwnLoops(r)
  {
    forall x {:trigger OnOwnLoop(r, x)} | x in r.edges ensures OnOwnLoop(r, x) {
      assert OnOwnLoop(h, x);
      SplicedOnOwnLoop(h, r, e, rc, lc, x);
    }
  }

  /** The state before the plane is recomputed is well-formed. */
  lemma AbsorbKeepsWellFormed(h: Hull, eps: real, e: EdgeId)
    requires WellFormed(h, eps) && CanRemove(h, e)
    ensures WellFormed(Absorb(h, e), eps)
  {
    var rc, lc := AroundRemovable(h, eps, e);
    WellFormedParts(h, eps);
    AbsorbSpliced(h, e, rc, lc);
    AbsorbFaces(h, e);
    AbsorbVertices(h, e);
    SplicedKeepsParts(h, Absorb(h, e), eps, e, rc, lc);
  }

  /** Any state with the spliced edges, faces and points of `Absorb` keeps the four parts of the invariant. */
  lemma SplicedKeepsParts(h: Hull, r: Hull, eps: real, e: EdgeId, rc: seq<EdgeId>, lc: seq<EdgeId>)
    requires ListsSound(h) && EdgesSound(h, eps) && LoopsSound(h) && OwnLoops(h)
    requires AroundEdge(h, e, rc, lc) && SplicedEdges(h.edges, r.edges, rc, lc, h.edges[e].face.value)
    requires var t := h.edges[e].twin.value;
      && FacesAfterRemove(h, r, e, t, h.edges[e].face.value, h.edges[t].face.value)
      && VerticesAfterRemove(h, r, h.edges[e].face.value, h.edges[t].face.value)
    ensures WellFormed(r, eps)
  {
    SplicedKeepsEdgeParts(h, r, eps, e, rc, lc);
    SplicedKeepsLoopParts(h, r, e, rc, lc);
    WellFormedParts(r, eps);
  }

  /** The lists stay sound and every remaining half-edge stays linked. */
  lemma SplicedKeepsEdgeParts(h: Hull, r: Hull, eps: real, e: EdgeId, rc: seq<EdgeId>, lc: seq<EdgeId>)
    requires ListsSound(h) && EdgesSound(h, eps)
    requires AroundEdge(h, e, rc, lc) && SplicedEdges(h.edges, r.edges, rc, lc, h.edges[e].face.value)
    requires var t := h.edges[e].twin.value;
      && FacesAfterRemove(h, r, e, t, h.edges[e].face.value, h.edges[t].face.value)
      && VerticesAfterRemove(h, r, h.edges[e].face.value, h.edges[t].face.value)
    ensures ListsSound(r) && EdgesSound(r, eps)
  {
    var t := h.edges[e].twin.value;
    SplicedEdgesSound(h, r, eps, e, rc, lc);
    AbsorbListed(h, r, h.edges[e].face.value, h.edges[t].face.value);
  }

  /** Every boundary stays a simple loop and every half-edge stays on its own face's boundary. */
  lemma SplicedKeepsLoopParts(h: Hull, r: Hull, e: EdgeId, rc: seq<EdgeId>, lc: seq<EdgeId>)
    requires LoopsSound(h) && OwnLoops(h)
    requires AroundEdge(h, e, rc, lc) && SplicedEdges(h.edges, r.edges, rc, lc, h.edges[e].face.value)
    requires var t := h.edges[e].twin.value;
      FacesAfterRemove(h, r, e, t, h.edges[e].face.value, h.edges[t].face.value)
    ensures LoopsSound(r) && OwnLoops(r)
  {
    FacesAfterAbsorb(h, r, e, rc, lc);
    SplicedLoopsSound(h, r, e, rc, lc);
    SplicedOwnLoops(h, r, e, rc, lc);
  }

  /** The face list loses exactly the left face, and every conflict point stays allocated. */
  lemma AbsorbListed(h: Hull, r: Hull, right: FaceId, left: FaceId)
    requires ListsSound(h) && right in h.faces && left in h.faces && right != left
    requires r.faces.Keys == h.faces.Keys - {left} && r.faceList == Without(h.faceList, left)
    requires r.vertexList == h.vertexList && r.vertices.Keys == h.vertices.Keys
    requires r.faces[right].conflictList == Reverse(h.faces[left].conflictList) + h.faces[right].conflictList
    requires forall g | g in h.faces && g != left && g != right :: r.faces[g] == h.faces[g]
    ensures ListsSound(r)
  {
    ListedWithout(h, r, left);
    forall f, j | f in r.faces && 0 <= j < |r.faces[f].conflictList| ensures r.faces[f].conflictList[j] in r.vertices {
      if f == right {
        JoinedConflicts(h.faces[left].conflictList, h.faces[right].conflictList, h.vertices.Keys, j);
      } else {
        assert r.faces[f] == h.faces[f];
      }
    }
  }

  /** Freeing a face and dropping it from the face list keeps the list exact. */
  lemma ListedWithout(h: Hull, r: Hull, left: FaceId)
    requires FacesListed(h) && r.faces.Keys == h.faces.Keys - {left} && r.faceList == Without(h.faceList, left)
    ensures FacesListed(r)
  {
    WithoutDistinct(h.faceList, left);
    forall i | 0 <= i < |r.faceList| ensures r.faceList[i] in r.faces {
      assert r.faceList[i] in r.faceList;
    }
  }

  /** Every point of the joined conflict list comes from one of the two lists. */
  lemma JoinedConflicts(l: seq<VertexId>, rl: seq<VertexId>, vs: set<VertexId>, j: int)
    requires (forall i | 0 <= i < |l| :: l[i] in vs) && (forall i | 0 <= i < |rl| :: rl[i] in vs)
    requires 0 <= j < |Reverse(l) + rl|
    ensures (Reverse(l) + rl)[j] in vs
  {
    ReverseMembers(l);
    if j < |Reverse(l)| {
      assert (Reverse(l) + rl)[j] in Reverse(l);
    } else {
      assert (Reverse(l) + rl)[j] == rl[j - |Reverse(l)|];
    }
  }

  /** `r` differs from `h` only in face records, and each face keeps its edge and its conflict list. */
  ghost predicate FaceRecordsOnly(h: Hull, r: Hull) {
    && r == h.(faces := r.faces) && r.faces.Keys == h.faces.Keys
    && forall g | g in h.faces :: r.faces[g].edge == h.faces[g].edge && r.faces[g].conflictList == h.faces[g].conflictList
  }

  /** Changing only face records, while keeping each face's edge and conflict list, keeps the invariant. */
  lemma FaceRecordsKeepWellFormed(h: Hull, r: Hull, eps: real)
    requires WellFormed(h, eps) && FaceRecordsOnly(h, r)
    ensures WellFormed(r, eps)
  {
    WellFormedParts(h, eps);
    FaceRecordsLists(h, r);
    FaceRecordsEdges(h, r, eps);
    FaceRecordsLoops(h, r);
    WellFormedParts(r, eps);
  }

  lemma FaceRecordsLists(h: Hull, r: Hull)
    requires ListsSound(h)
    requires r.faceList == h.faceList && r.vertexList == h.vertexList && r.vertices == h.vertices && r.faces.Keys == h.faces.Keys
    requires forall g | g in h.faces :: r.faces[g].conflictList == h.faces[g].conflictList
    ensures ListsSound(r)
  {
  }

  lemma FaceRecordsEdges(h: Hull, r: Hull, eps: real)
    requires EdgesSound(h, eps)
    requires r.edges == h.edges && r.vertices == h.vertices && r.faces.Keys == h.faces.Keys
    ensures EdgesSound(r, eps)
  {
    forall x | x in r.edges ensures EdgeSound(r, eps, x) {
      assert EdgeSound(h, eps, x);
    }
  }

  lemma FaceRecordsLoops(h: Hull, r: Hull)
    requires LoopsSound(h) && OwnLoops(h)
    requires r.edges == h.edges && r.faces.Keys == h.faces.Keys
    requires forall g | g in h.faces :: r.faces[g].edge == h.faces[g].edge
    ensures LoopsSound(r) && OwnLoops(r)
  {
    forall g | g in r.faces ensures FaceSound(r, g) {
      assert FaceSound(h, g);
    }
    forall x {:trigger OnOwnLoop(r, x)} | x in r.edges ensures OnOwnLoop(r, x) {
      assert OnOwnLoop(h, x);
    }
  }

  /** Recomputing a face's plane changes nothing but that face's plane and center. */
  lemma ComputePlaneRecords(h: Hull, k: Kernel, f: FaceId)
    requires f in h.faces
    ensures FaceRecordsOnly(h, ComputePlane(h, k, f))
  {
  }

  /** Recomputing a face's plane keeps the invariant. */
  lemma ComputePlaneKeepsWellFormed(h: Hull, k: Kernel, f: FaceId, eps: real)
    requires WellFormed(h, eps) && f in h.faces
    ensures WellFormed(ComputePlane(h, k, f), eps)
  {
    ComputePlaneRecords(h, k, f);
    FaceRecordsKeepWellFormed(h, ComputePlane(h, k, f), eps);
  }

  /**
   * Removing the edge between two distinct faces of a well-formed hull leaves it well-formed: the
   * merged boundary is a simple loop linked both ways, the links at the two splice points run
   * head to tail, and every other face and half-edge keeps its links.
   */
  lemma RemoveEdgeKeepsWellFormed(h: Hull, k: Kernel, e: EdgeId, eps: real)
    requires WellFormed(h, eps) && CanRemove(h, e)
    ensures WellFormed(RemoveEdge(h, k, e).0, eps)
  {
    var right := h.edges[e].face.value;
    AbsorbKeepsWellFormed(h, eps, e);
    AbsorbFaces(h, e);
    ComputePlaneKeepsWellFormed(Absorb(h, e), k, right, eps);
    assert RemoveEdge(h, k, e).0 == ComputePlane(Absorb(h, e), k, right);
  }

  // ---------------------------------------------------------------------------------------------
  // The merge loops keep the invariant.

  lemma MergeFaceKeepsWellFormed(h: Hull, k: Kernel, right: FaceId, eps: real)
    requires right in h.faces && WellFormed(h, eps)
    ensures WellFormed(MergeFace(h, k, right).0, eps)
  {
    match FaceLoop(h, right)
    case None =>
    case Some(c) =>
      match FirstMergeable(h, right, c)
      case None =>
      case Some(e) =>
        if CanRemove(h, e) && h.edges[e].face == Some(right) {
          RemoveEdgeKeepsWellFormed(h, k, e, eps);
        }
  }

  /** `while (MergeFace(face));` keeps the invariant. */
  lemma {:induction false} MergeLoopKeepsWellFormed(h: Hull, k: Kernel, f: FaceId, eps: real)
    requires f in h.faces && WellFormed(h, eps)
    ensures WellFormed(MergeLoop(h, k, f), eps)
    decreases |h.faces|
  {
    var m := MergeFace(h, k, f);
    MergeFaceKeepsWellFormed(h, k, f, eps);
    if m.1 {
      MergeLoopKeepsWellFormed(m.0, k, f, eps);
    }
  }

  /** Merging each new face in turn keeps the invariant. */
  lemma {:induction false} MergeFacesKeepsWellFormed(h: Hull, k: Kernel, fs: seq<FaceId>, eps: real)
    requires WellFormed(h, eps)
    ensures WellFormed(MergeFaces(h, k, fs), eps)
    decreases |fs|
  {
    if |fs| > 0 {
      var h' := if fs[0] in h.faces then MergeLoop(h, k, fs[0]) else h;
      if fs[0] in h.faces {
        MergeLoopKeepsWellFormed(h, k, fs[0], eps);
      }
      MergeFacesKeepsWellFormed(h', k, fs[1..], eps);
    }
  }
}
