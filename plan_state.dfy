/** The state a `FloorPlan` (src/components/2d/FloorPlan.ts) keeps, stated on its tables:
    the invariant every operation preserves, what `update` leaves behind (the rooms found
    and a half-edge on every wall), and the scans `mergeWithIntersected`, `overlappedCorner`
    and `overlappedWall` make. */
module PlanState {
  import opened Wrappers
  import opened Utils
  import opened Utils2D
  import opened Graph
  import opened RoomSearch
  import opened Incidence
  import opened Rooms

  /** `cornerTolerance`: how close a moved corner must come to a corner or a wall to be
      merged into it. */
  const CornerTolerance: real := 20.0

  /** `defaultFloorPlanTolerance`: the hit-test tolerance used when none (or zero) is given. */
  const DefaultTolerance: real := 10.0

  /** Every room's corners are in the corner table. */
  predicate RoomsBelow(rooms: seq<Room>, cornerCount: nat) {
    forall r :: 0 <= r < |rooms| ==> AllBelow(rooms[r].corners, cornerCount)
  }

  /** Every room's corners and first half-edge are in their tables; no room is deleted
      (nothing ever deletes one). */
  predicate RoomsOk(rooms: seq<Room>, cornerCount: nat, edgeCount: nat) {
    && RoomsBelow(rooms, cornerCount)
    && forall r :: 0 <= r < |rooms| ==> OptionBelow(rooms[r].edgePointer, edgeCount) && !rooms[r].deleted
  }

  /** The invariant of a floor plan: the incidence invariant, every reference in its table,
      each wall side pointing to a half-edge built on that side. */
  predicate PlanOk(ct: seq<Corner>, wt: seq<Wall>, et: seq<HalfEdge>, cs: seq<CornerRef>, ws: seq<WallRef>, rooms: seq<Room>) {
    && IncidenceOk(ct, wt)
    && WallEdgesOk(wt, |et|)
    && EdgeRefsOk(et, |wt|)
    && EdgesConsistent(wt, et)
    && AllBelow(cs, |ct|)
    && AllBelow(ws, |wt|)
    && RoomsOk(rooms, |ct|, |et|)
  }

  /** A new corner table of the same length that keeps the incidence invariant keeps the
      plan invariant. */
  lemma CornersKeepPlan(ct: seq<Corner>, ct2: seq<Corner>, wt: seq<Wall>, et: seq<HalfEdge>, cs: seq<CornerRef>, ws: seq<WallRef>, rooms: seq<Room>)
    requires PlanOk(ct, wt, et, cs, ws, rooms) && |ct2| == |ct| && IncidenceOk(ct2, wt)
    ensures PlanOk(ct2, wt, et, cs, ws, rooms)
  {
  }

  /** A new wall table of the same length whose walls keep their corners keeps the plan
      invariant, as long as its half-edge pointers stay consistent. */
  lemma WallsKeepPlan(ct: seq<Corner>, wt: seq<Wall>, wt2: seq<Wall>, et: seq<HalfEdge>, cs: seq<CornerRef>, ws: seq<WallRef>, rooms: seq<Room>)
    requires PlanOk(ct, wt, et, cs, ws, rooms) && SameEnds(wt, wt2)
    requires WallEdgesOk(wt2, |et|) && EdgesConsistent(wt2, et)
    ensures PlanOk(ct, wt2, et, cs, ws, rooms)
  {
    SameCornersKeepIncidence(ct, wt, wt2);
  }

  /** Marking a wall deleted keeps the plan invariant. */
  lemma WallDeletedKeepsPlan(ct: seq<Corner>, wt: seq<Wall>, et: seq<HalfEdge>, cs: seq<CornerRef>, ws: seq<WallRef>,
                             rooms: seq<Room>, w: WallRef)
    requires PlanOk(ct, wt, et, cs, ws, rooms) && w < |wt|
    ensures PlanOk(ct, wt[w := wt[w].(deleted := true)], et, cs, ws, rooms)
  {
    WallsKeepPlan(ct, wt, wt[w := wt[w].(deleted := true)], et, cs, ws, rooms);
  }

  /** Rewriting links among existing half-edges keeps the plan invariant as long as every
      half-edge keeps its wall and side. */
  lemma EdgesKeepPlan(ct: seq<Corner>, wt: seq<Wall>, et: seq<HalfEdge>, et2: seq<HalfEdge>, cs: seq<CornerRef>, ws: seq<WallRef>, rooms: seq<Room>)
    requires PlanOk(ct, wt, et, cs, ws, rooms) && |et2| == |et|
    requires forall k :: 0 <= k < |et| ==>
      && et2[k].wall == et[k].wall && et2[k].front == et[k].front
      && OptionBelow(et2[k].prev, |et|) && OptionBelow(et2[k].next, |et|)
    ensures PlanOk(ct, wt, et2, cs, ws, rooms)
  {
  }

  /** Pushing a room whose corners and first half-edge are in their tables keeps the plan
      invariant. */
  lemma RoomKeepsPlan(ct: seq<Corner>, wt: seq<Wall>, et: seq<HalfEdge>, cs: seq<CornerRef>, ws: seq<WallRef>,
                      rooms: seq<Room>, room: Room)
    requires PlanOk(ct, wt, et, cs, ws, rooms) && RoomsBelow(rooms + [room], |ct|)
    requires OptionBelow(room.edgePointer, |et|) && !room.deleted
    ensures PlanOk(ct, wt, et, cs, ws, rooms + [room])
  {
  }

  /** Two wall tables that differ at most in the half-edges and the orphan flag of a wall. */
  predicate SameButSides(wt: seq<Wall>, wt2: seq<Wall>) {
    |wt2| == |wt| && forall w :: 0 <= w < |wt| ==>
      wt2[w] == wt[w].(frontEdge := wt2[w].frontEdge, backEdge := wt2[w].backEdge, orphan := wt2[w].orphan)
  }

  /** The walls of `wt0` kept their corners or took `t` in their place; walls may have been
      added after them. */
  predicate RepointedTo(wt0: seq<Wall>, wt: seq<Wall>, t: CornerRef) {
    |wt0| <= |wt| && forall v :: 0 <= v < |wt0| ==>
      (wt[v].start == wt0[v].start || wt[v].start == t) && (wt[v].end == wt0[v].end || wt[v].end == t)
  }

  /** The two loops of `combineCorners` re-point walls only to `t` and move no corner. */
  lemma AbsorbedTwice(ct0: seq<Corner>, wt0: seq<Wall>, ct1: seq<Corner>, wt1: seq<Wall>,
                      ct: seq<Corner>, wt: seq<Wall>, t: CornerRef, c: CornerRef)
    requires Absorbing(ct0, wt0, ct1, wt1, t, c, true, 0) && Absorbing(ct1, wt1, ct, wt, t, c, false, 0)
    ensures AbsorbOthers(ct0, ct, t, c)
    ensures |wt| == |wt0| && RepointedTo(wt0, wt, t)
  {
  }

  /** `combineCorners` from end to end: `t` alone moves, to where `c` was, and walls are
      re-pointed only to `t`. */
  lemma CombineMoves(ct0: seq<Corner>, wt0: seq<Wall>, ctC: seq<Corner>, wtC: seq<Wall>,
                     ct: seq<Corner>, wtD: seq<Wall>, wt: seq<Wall>, t: CornerRef, c: CornerRef)
    requires t < |ct0| && c < |ct0|
    requires AbsorbOthers(ct0[t := ct0[t].(x := ct0[c].x, y := ct0[c].y)], ctC, t, c)
    requires |wtC| == |wt0| && RepointedTo(wt0, wtC, t)
    requires |ct| == |ctC| && forall m :: 0 <= m < |ct| ==> ct[m].x == ctC[m].x && ct[m].y == ctC[m].y
    requires SameEnds(wtC, wtD) && SameEnds(wtD, wt)
    ensures |ct| == |ct0| && ct[t].x == ct0[c].x && ct[t].y == ct0[c].y
    ensures forall m :: 0 <= m < |ct| && m != t ==> ct[m].x == ct0[m].x && ct[m].y == ct0[m].y
    ensures RepointedTo(wt0, wt, t)
  {
  }

  /** The point of wall `w` closest to corner `nc`, where the wall case of
      `mergeWithIntersected` puts the corner. */
  function SplitPoint(ct: seq<Corner>, wt: seq<Wall>, nc: CornerRef, w: WallRef): Point
    requires nc < |ct| && w < |wt| && WallCornersOk(wt, |ct|)
  {
    var s := ct[wt[w].start];
    var e := ct[wt[w].end];
    ClosestPointOnLine(ct[nc].x, ct[nc].y, s.x, s.y, e.x, e.y)
  }

  /** Wall `w` split at corner `nc`: the corner sits at `SplitPoint`, `w` now ends at
      `nc`, a new wall from `nc` to `w`'s old end is listed last, and no other wall
      changes its corners. */
  predicate WallSplit(ct0: seq<Corner>, wt0: seq<Wall>, ws0: seq<WallRef>,
                      ct: seq<Corner>, wt: seq<Wall>, ws: seq<WallRef>, nc: CornerRef, w: WallRef)
    requires nc < |ct0| && w < |wt0| && WallCornersOk(wt0, |ct0|)
  {
    var p := SplitPoint(ct0, wt0, nc, w);
    && |ct| == |ct0| && ct[nc].x == p.x && ct[nc].y == p.y
    && ws == ws0 + [|wt0|] && |wt| == |wt0| + 1
    && wt[|wt0|].start == nc && wt[|wt0|].end == wt0[w].end
    && wt[w].start == wt0[w].start && wt[w].end == nc
    && (forall v :: 0 <= v < |wt0| && v != w ==> wt[v].start == wt0[v].start && wt[v].end == wt0[v].end)
  }

  /** `Corner.move(x, y)` on corner `c`: the corner is placed at `(x, y)` and then merged.
      If a listed corner other than `c` is within the corner tolerance of the new
      position, `c` takes the first such corner's position (and its walls); otherwise, if
      a listed wall that `c` does not list is, that wall is split at `c`; otherwise `c`
      simply stands at `(x, y)`. No other corner moves, and walls are re-pointed only to
      `c`. */
  predicate Moved(ct0: seq<Corner>, wt0: seq<Wall>, cs0: seq<CornerRef>, ws0: seq<WallRef>,
                  ct: seq<Corner>, wt: seq<Wall>, cs: seq<CornerRef>, ws: seq<WallRef>, c: CornerRef, x: real, y: real)
    requires c < |ct0| && AllBelow(cs0, |ct0|) && AllBelow(ws0, |wt0|) && WallCornersOk(wt0, |ct0|)
  {
    var placed := ct0[c := ct0[c].(x := x, y := y)];
    && |ct| == |ct0|
    && (forall m :: 0 <= m < |ct| && m != c ==> ct[m].x == ct0[m].x && ct[m].y == ct0[m].y)
    && RepointedTo(wt0, wt, c)
    && MergedAt(ct0, wt0, cs0, ws0, ct, wt, cs, ws, c, placed,
                CloseCornerFrom(placed, cs0, c, 0), CloseWallFrom(placed, wt0, ws0, c, 0))
  }

  /** What `mergeWithIntersected` did to corner `c` of the table `placed`, in which `c` has
      just been placed, given the first listed corner and the first listed wall within the
      tolerance: `c` took the corner's position and the corner left the list, or the wall
      was split at `c`, or nothing changed. */
  predicate MergedAt(ct0: seq<Corner>, wt0: seq<Wall>, cs0: seq<CornerRef>, ws0: seq<WallRef>,
                     ct: seq<Corner>, wt: seq<Wall>, cs: seq<CornerRef>, ws: seq<WallRef>, c: CornerRef,
                     placed: seq<Corner>, hitCorner: Option<nat>, hitWall: Option<nat>)
    requires |placed| == |ct0| == |ct| && c < |ct0| && AllBelow(cs0, |ct0|) && AllBelow(ws0, |wt0|)
    requires WallCornersOk(wt0, |ct0|)
    requires hitCorner.Some? ==> hitCorner.value < |cs0|
    requires hitWall.Some? ==> hitWall.value < |ws0|
  {
    match hitCorner
    case Some(k) =>
      && cs == Without(cs0, cs0[k])
      && ct[c].x == ct0[cs0[k]].x && ct[c].y == ct0[cs0[k]].y
    case None =>
      match hitWall
      case Some(v) => cs == cs0 && WallSplit(placed, wt0, ws0, ct, wt, ws, c, ws0[v])
      case None => ct == placed && wt == wt0 && cs == cs0 && ws == ws0
  }

  /** The wall case of `mergeWithIntersected` from end to end: only `nc` moves; the new
      wall runs from `nc` to the old end of `w`, which now ends at `nc`; no other wall
      changes its corners. */
  lemma SplitMoves(ct0: seq<Corner>, wt0: seq<Wall>, nc: CornerRef, w: WallRef, x: real, y: real, nw: Wall,
                   ct1: seq<Corner>, wt1: seq<Wall>, ct: seq<Corner>, wt2: seq<Wall>, wt: seq<Wall>)
    requires nc < |ct0| && w < |wt0| && wt0[w].end < |ct0| && nw.start == nc && nw.end == wt0[w].end
    requires ct1 == Registered(ct0[nc := ct0[nc].(x := x, y := y)], nc, wt0[w].end, |wt0|)
    requires SameButSides(wt0 + [nw], wt1) && wt1[w].end < |ct1|
    requires ct == (var d := Detached(ct1, wt1[w].end, w); d[nc := WithEnd(d[nc], w)])
    requires wt2 == wt1[w := wt1[w].(end := nc)] && SameButSides(wt2, wt)
    ensures |ct| == |ct0| && ct[nc].x == x && ct[nc].y == y
    ensures forall m :: 0 <= m < |ct| && m != nc ==> ct[m].x == ct0[m].x && ct[m].y == ct0[m].y
    ensures |wt| == |wt0| + 1 && wt[|wt0|].start == nc && wt[|wt0|].end == wt0[w].end
    ensures wt[w].start == wt0[w].start && wt[w].end == nc
    ensures forall v :: 0 <= v < |wt0| && v != w ==> wt[v].start == wt0[v].start && wt[v].end == wt0[v].end
    ensures RepointedTo(wt0, wt, nc)
  {
    assert (wt0 + [nw])[|wt0|] == nw;
    assert forall v :: 0 <= v < |wt0| ==> (wt0 + [nw])[v] == wt0[v];
  }

  /** `combineCorners` after its loops: `c` marked deleted and the sides rebuilt keep what
      the loops did. */
  lemma CombinedSettles(ct0: seq<Corner>, wt0: seq<Wall>, ct1: seq<Corner>, wt1: seq<Wall>,
                        ct: seq<Corner>, wt: seq<Wall>, t: CornerRef, c: CornerRef)
    requires t < |ct0| && c < |ct0| && Combined(ct0, wt0, ct1, wt1, t, c)
    requires ct == ct1[c := ct1[c].(deleted := true)] && SameButSides(wt1, wt)
    ensures Combined(ct0, wt0, ct, wt, t, c)
  {
  }

  lemma SameButSidesEnds(wt: seq<Wall>, wt2: seq<Wall>)
    requires SameButSides(wt, wt2)
    ensures SameEnds(wt, wt2)
  {
    forall w | 0 <= w < |wt| ensures wt2[w].start == wt[w].start && wt2[w].end == wt[w].end {
      assert wt2[w] == wt[w].(frontEdge := wt2[w].frontEdge, backEdge := wt2[w].backEdge, orphan := wt2[w].orphan);
    }
  }

  /** A half-edge built on a side reads only the wall's thickness and height. */
  lemma SameButSidesEdgeFor(wt: seq<Wall>, wt2: seq<Wall>, s: Side, prev: Option<EdgeRef>, next: Option<EdgeRef>)
    requires SameButSides(wt, wt2) && s.wall < |wt|
    ensures EdgeFor(wt, s, prev, next) == EdgeFor(wt2, s, prev, next)
  {
    assert wt2[s.wall] == wt[s.wall].(frontEdge := wt2[s.wall].frontEdge, backEdge := wt2[s.wall].backEdge, orphan := wt2[s.wall].orphan);
  }

  // ---------------------------------------------------------------------------------------
  // Building a room's half-edges, pair by pair

  /** The half-edge table after the first `|slots|` pairs of `updateWalls`, started from
      `et0`: the earlier half-edges untouched, one new half-edge per joined pair, numbered
      in order, forming the partial ring. */
  predicate EdgesBuilt(et: seq<HalfEdge>, picks: seq<Option<Side>>, slots: seq<Option<EdgeRef>>, n: nat,
                       wt0: seq<Wall>, et0: seq<HalfEdge>)
    requires |slots| <= |picks|
  {
    && slots == SlotsOf(picks[..|slots|], |et0|)
    && (forall j :: 0 <= j < |slots| && slots[j].Some? ==> |et0| <= slots[j].value)
    && |et| == |et0| + CountSome(picks[..|slots|])
    && et[..|et0|] == et0
    && RingInv(et, wt0, picks, slots, n) && SlotsDistinct(slots)
  }

  /** The wall table after the first `|slots|` pairs, started from `wt0`: walls changed only
      in their sides, each side pointing to the slot of the last pair that picked it. */
  predicate WallsBuilt(wt: seq<Wall>, picks: seq<Option<Side>>, slots: seq<Option<EdgeRef>>, wt0: seq<Wall>)
    requires |slots| <= |picks|
  {
    && SameButSides(wt0, wt)
    && (forall w :: 0 <= w < |wt| ==>
          && wt[w].frontEdge == SideEdge(picks[..|slots|], slots, Side(w, true), wt0[w].frontEdge)
          && wt[w].backEdge == SideEdge(picks[..|slots|], slots, Side(w, false), wt0[w].backEdge)
          && wt[w].orphan == wt0[w].orphan)
  }

  /** Both tables after the first `|slots|` pairs. */
  predicate RoomBuilt(wt: seq<Wall>, et: seq<HalfEdge>, picks: seq<Option<Side>>, slots: seq<Option<EdgeRef>>, n: nat,
                      wt0: seq<Wall>, et0: seq<HalfEdge>)
    requires |slots| <= |picks|
  {
    EdgesBuilt(et, picks, slots, n, wt0, et0) && WallsBuilt(wt, picks, slots, wt0)
  }

  /** The half-edge one pair of `updateWalls` builds on the side `p` it picked: none when it
      picked none; otherwise a new unlinked half-edge on that side, which the side now
      points to. */
  predicate NewSide(wt1: seq<Wall>, et1: seq<HalfEdge>, wt2: seq<Wall>, et2: seq<HalfEdge>, p: Option<Side>, edge: Option<EdgeRef>) {
    && (p.None? ==> edge.None? && et2 == et1 && wt2 == wt1)
    && (p.Some? ==>
          && p.value.wall < |wt1| && edge == Some(|et1|)
          && wt2 == wt1[p.value.wall := if p.value.front then wt1[p.value.wall].(frontEdge := edge)
                                        else wt1[p.value.wall].(backEdge := edge)]
          && et2 == et1 + [EdgeFor(wt1, p.value, None, None)])
  }

  /** What one pair does: its half-edge, linked into the ring unless it is the first pair
      or there is none. */
  predicate PairStep(wt1: seq<Wall>, et1: seq<HalfEdge>, wt2: seq<Wall>, et: seq<HalfEdge>, et2: seq<HalfEdge>,
                     slots: seq<Option<EdgeRef>>, n: nat, p: Option<Side>, edge: Option<EdgeRef>)
  {
    && NewSide(wt1, et1, wt2, et, p, edge)
    && (edge.None? || slots == [] ==> et2 == et)
    && (edge.Some? && slots != [] ==>
          && edge.value < |et|
          && (forall j :: 0 <= j < |slots| && slots[j].Some? ==> slots[j].value < |et|)
          && et2 == LinkedRing(et, slots, n, edge.value))
  }

  /** The slots built so far are half-edges of the table. */
  lemma RoomBuiltBelow(wt: seq<Wall>, et: seq<HalfEdge>, picks: seq<Option<Side>>, slots: seq<Option<EdgeRef>>, n: nat,
                       wt0: seq<Wall>, et0: seq<HalfEdge>)
    requires |slots| <= |picks| && RoomBuilt(wt, et, picks, slots, n, wt0, et0)
    ensures forall j :: 0 <= j < |slots| && slots[j].Some? ==> slots[j].value < |et|
    ensures SameEnds(wt0, wt)
  {
    SameButSidesEnds(wt0, wt);
  }

  /** A pair no wall joins adds an empty slot. */
  lemma EdgesBuiltNone(et1: seq<HalfEdge>, picks: seq<Option<Side>>, slots: seq<Option<EdgeRef>>, n: nat,
                       wt0: seq<Wall>, et0: seq<HalfEdge>)
    requires |slots| < |picks| && |slots| < n && picks[|slots|].None?
    requires EdgesBuilt(et1, picks, slots, n, wt0, et0)
    ensures EdgesBuilt(et1, picks, slots + [None], n, wt0, et0)
  {
    var i := |slots|;
    SlotsSnoc(picks, |et0|, i);
    assert picks[..i + 1][..i] == picks[..i];
    assert CountSome(picks[..i + 1]) == CountSome(picks[..i]);
    assert slots + [None] == SlotsOf(picks[..i + 1], |et0|);
    RingStepNone(et1, wt0, picks, slots, n);
  }

  /** The first pair, when joined, adds the first half-edge. */
  lemma EdgesBuiltFirst(et1: seq<HalfEdge>, picks: seq<Option<Side>>, n: nat, wt0: seq<Wall>, et0: seq<HalfEdge>)
    requires 0 < |picks| && 0 < n && picks[0].Some? && picks[0].value.wall < |wt0|
    requires EdgesBuilt(et1, picks, [], n, wt0, et0)
    ensures EdgesBuilt(et1 + [EdgeFor(wt0, picks[0].value, None, None)], picks, [Some(|et1|)], n, wt0, et0)
  {
    var et2 := et1 + [EdgeFor(wt0, picks[0].value, None, None)];
    SlotsSnoc(picks, |et0|, 0);
    assert picks[..1][..0] == picks[..0];
    RingStepFirst(et1, wt0, picks, n);
    assert et2[..|et0|] == et1[..|et0|];
  }

  /** One pair of `updateWalls` from end to end: its half-edge is built on the side it
      picked and, unless it is the first pair or there is none, linked into the ring. */
  lemma PairBuilt(wt1: seq<Wall>, et1: seq<HalfEdge>, wt2: seq<Wall>, et: seq<HalfEdge>, et2: seq<HalfEdge>,
                  picks: seq<Option<Side>>, slots: seq<Option<EdgeRef>>, n: nat, edge: Option<EdgeRef>,
                  wt0: seq<Wall>, et0: seq<HalfEdge>)
    requires |slots| < |picks| && |slots| < n
    requires RoomBuilt(wt1, et1, picks, slots, n, wt0, et0)
    requires NewSide(wt1, et1, wt2, et, picks[|slots|], edge)
    requires edge.None? || slots == [] ==> et2 == et
    requires edge.Some? && slots != [] ==> et2 == LinkedRing(et, slots, n, edge.value)
    ensures RoomBuilt(wt2, et2, picks, slots + [edge], n, wt0, et0)
  {
    RoomBuiltBelow(wt1, et1, picks, slots, n, wt0, et0);
    assert PairStep(wt1, et1, wt2, et, et2, slots, n, picks[|slots|], edge);
    SameButSidesEnds(wt0, wt1);
    EdgesBuiltStep(wt1, et1, wt2, et, et2, picks, slots, n, edge, wt0, et0);
    WallsBuiltStep(wt1, et1, wt2, et, et2, picks, slots, n, edge, wt0);
  }

  /** A later joined pair adds a half-edge and links it. */
  lemma EdgesBuiltLink(et1: seq<HalfEdge>, picks: seq<Option<Side>>, slots: seq<Option<EdgeRef>>, n: nat,
                       wt0: seq<Wall>, et0: seq<HalfEdge>)
    requires 0 < |slots| < |picks| && |slots| < n && picks[|slots|].Some? && picks[|slots|].value.wall < |wt0|
    requires EdgesBuilt(et1, picks, slots, n, wt0, et0)
    ensures var et := et1 + [EdgeFor(wt0, picks[|slots|].value, None, None)];
      && (forall j :: 0 <= j < |slots| && slots[j].Some? ==> slots[j].value < |et|)
      && EdgesBuilt(LinkedRing(et, slots, n, |et1|), picks, slots + [Some(|et1|)], n, wt0, et0)
  {
    var i := |slots|;
    var base := |et0|;
    var et := et1 + [EdgeFor(wt0, picks[i].value, None, None)];
    var et2 := LinkedRing(et, slots, n, |et1|);
    SlotsSnoc(picks, base, i);
    assert picks[..i + 1][..i] == picks[..i];
    RingStepLink(et1, wt0, picks, slots, n);
    LinkedRingShape(et, slots, n, |et1|);
    assert et2[..base] == et0 by {
      forall k | 0 <= k < base ensures et2[k] == et0[k] {
        assert et1[..base][k] == et0[k];
      }
    }
  }

  lemma EdgesBuiltStep(wt1: seq<Wall>, et1: seq<HalfEdge>, wt2: seq<Wall>, et: seq<HalfEdge>, et2: seq<HalfEdge>,
                       picks: seq<Option<Side>>, slots: seq<Option<EdgeRef>>, n: nat, edge: Option<EdgeRef>,
                       wt0: seq<Wall>, et0: seq<HalfEdge>)
    requires |slots| < |picks| && |slots| < n
    requires EdgesBuilt(et1, picks, slots, n, wt0, et0) && SameButSides(wt0, wt1)
    requires PairStep(wt1, et1, wt2, et, et2, slots, n, picks[|slots|], edge)
    ensures EdgesBuilt(et2, picks, slots + [edge], n, wt0, et0)
  {
    var pick := picks[|slots|];
    if pick.None? {
      EdgesBuiltNone(et1, picks, slots, n, wt0, et0);
    } else {
      SameButSidesEdgeFor(wt0, wt1, pick.value, None, None);
      if slots == [] {
        EdgesBuiltFirst(et1, picks, n, wt0, et0);
      } else {
        EdgesBuiltLink(et1, picks, slots, n, wt0, et0);
      }
    }
  }

  lemma WallsBuiltStep(wt1: seq<Wall>, et1: seq<HalfEdge>, wt2: seq<Wall>, et: seq<HalfEdge>, et2: seq<HalfEdge>,
                       picks: seq<Option<Side>>, slots: seq<Option<EdgeRef>>, n: nat, edge: Option<EdgeRef>,
                       wt0: seq<Wall>)
    requires |slots| < |picks|
    requires WallsBuilt(wt1, picks, slots, wt0)
    requires PairStep(wt1, et1, wt2, et, et2, slots, n, picks[|slots|], edge)
    ensures WallsBuilt(wt2, picks, slots + [edge], wt0)
  {
    var i := |slots|;
    assert SameButSides(wt0, wt2) by {
      forall w | 0 <= w < |wt0|
        ensures wt2[w] == wt0[w].(frontEdge := wt2[w].frontEdge, backEdge := wt2[w].backEdge, orphan := wt2[w].orphan)
      {
        assert wt1[w] == wt0[w].(frontEdge := wt1[w].frontEdge, backEdge := wt1[w].backEdge, orphan := wt1[w].orphan);
      }
    }
    forall w | 0 <= w < |wt2|
      ensures wt2[w].frontEdge == SideEdge(picks[..i + 1], slots + [edge], Side(w, true), wt0[w].frontEdge)
      ensures wt2[w].backEdge == SideEdge(picks[..i + 1], slots + [edge], Side(w, false), wt0[w].backEdge)
    {
      SideEdgeSnoc(picks, slots, i, edge, Side(w, true), wt0[w].frontEdge);
      SideEdgeSnoc(picks, slots, i, edge, Side(w, false), wt0[w].backEdge);
    }
  }

  // ---------------------------------------------------------------------------------------
  // What update() leaves behind

  /** A wall with no half-edge on either side. */
  predicate NoSides(w: Wall) {
    w.frontEdge.None? && w.backEdge.None?
  }

  /** A pick names wall `w`. */
  predicate OnWall(p: Option<Side>, w: WallRef) {
    p.Some? && p.value.wall == w
  }

  /** Some pair of the corner cycle `cs` builds its half-edge on wall `w`. */
  predicate CycleUses(ct: seq<Corner>, wt: seq<Wall>, cs: seq<CornerRef>, w: WallRef)
    requires CornerListsOk(ct, |wt|) && AllBelow(cs, |ct|)
  {
    exists j :: 0 <= j < |cs| && OnWall(PickSide(ct, wt, cs, j), w)
  }

  /** Some room builds a half-edge on wall `w`. */
  predicate OnRooms(ct: seq<Corner>, wt: seq<Wall>, rooms: seq<Room>, w: WallRef)
    requires CornerListsOk(ct, |wt|) && RoomsBelow(rooms, |ct|)
  {
    exists r :: 0 <= r < |rooms| && CycleUses(ct, wt, rooms[r].corners, w)
  }

  /** Adding a room adds the walls its cycle uses. */
  lemma OnRoomsSnoc(ct: seq<Corner>, wt: seq<Wall>, rooms: seq<Room>, room: Room, w: WallRef)
    requires CornerListsOk(ct, |wt|) && RoomsBelow(rooms, |ct|) && AllBelow(room.corners, |ct|)
    ensures RoomsBelow(rooms + [room], |ct|)
    ensures OnRooms(ct, wt, rooms + [room], w) <==> OnRooms(ct, wt, rooms, w) || CycleUses(ct, wt, room.corners, w)
  {
    var rs := rooms + [room];
    assert rs[|rooms|] == room;
    if OnRooms(ct, wt, rooms, w) {
      var r :| 0 <= r < |rooms| && CycleUses(ct, wt, rooms[r].corners, w);
      assert rs[r] == rooms[r];
    }
    if OnRooms(ct, wt, rs, w) {
      var r :| 0 <= r < |rs| && CycleUses(ct, wt, rs[r].corners, w);
      if r < |rooms| {
        assert rs[r] == rooms[r];
      }
    }
  }

  /** The sides of a wall after a room's half-edges are built: a wall the room's cycle uses
      has a half-edge on some side; a wall it does not use keeps both of its sides; no
      wall's orphan flag changes. */
  lemma NewRoomSides(ct: seq<Corner>, wt0: seq<Wall>, wt: seq<Wall>, wt2: seq<Wall>, et: seq<HalfEdge>, et2: seq<HalfEdge>,
                     cs: seq<CornerRef>, w: WallRef)
    requires CornerListsOk(ct, |wt0|) && AllBelow(cs, |ct|) && SameEnds(wt0, wt) && w < |wt|
    requires var picks := Picks(ct, wt, cs);
      RoomBuilt(wt2, et2, picks, SlotsOf(picks, |et|), |cs|, wt, et)
    ensures SameButSides(wt, wt2) && wt2[w].orphan == wt[w].orphan
    ensures CycleUses(ct, wt0, cs, w) ==> !NoSides(wt2[w])
    ensures !CycleUses(ct, wt0, cs, w) ==> wt2[w].frontEdge == wt[w].frontEdge && wt2[w].backEdge == wt[w].backEdge
  {
    PicksSameEnds(ct, wt0, wt, cs);
    var picks := Picks(ct, wt, cs);
    var slots := SlotsOf(picks, |et|);
    assert picks[..|slots|] == picks;
    assert WallsBuilt(wt2, picks, slots, wt);
    SideEdgeSpec(picks, slots, Side(w, true), wt[w].frontEdge);
    SideEdgeSpec(picks, slots, Side(w, false), wt[w].backEdge);
    if CycleUses(ct, wt0, cs, w) {
      var j :| 0 <= j < |cs| && OnWall(PickSide(ct, wt0, cs, j), w);
      var f := picks[j].value.front;
      assert picks[j] == Some(Side(w, f));
      var k :| 0 <= k < |picks| && picks[k] == Some(Side(w, f))
        && SideEdge(picks, slots, Side(w, f), if f then wt[w].frontEdge else wt[w].backEdge) == slots[k];
      assert slots[k].Some?;
    } else {
      forall j | 0 <= j < |picks| ensures picks[j] != Some(Side(w, true)) && picks[j] != Some(Side(w, false)) {
        assert !OnWall(PickSide(ct, wt0, cs, j), w);
      }
    }
  }

  /** While `update` adds rooms to a plan whose walls it reset: no listed wall is an orphan,
      and one has a half-edge exactly when a room added so far uses it. */
  predicate SidesSoFar(ct: seq<Corner>, wt0: seq<Wall>, wt: seq<Wall>, ws: seq<WallRef>, rooms: seq<Room>)
    requires CornerListsOk(ct, |wt0|) && AllBelow(ws, |wt|) && RoomsBelow(rooms, |ct|)
  {
    forall k :: 0 <= k < |ws| ==>
      !wt[ws[k]].orphan && (NoSides(wt[ws[k]]) <==> !OnRooms(ct, wt0, rooms, ws[k]))
  }

  /** Adding a room keeps `SidesSoFar`. */
  lemma SidesSoFarStep(ct: seq<Corner>, wt0: seq<Wall>, wt: seq<Wall>, wt2: seq<Wall>, et: seq<HalfEdge>, et2: seq<HalfEdge>,
                       ws: seq<WallRef>, rooms: seq<Room>, room: Room)
    requires CornerListsOk(ct, |wt0|) && SameEnds(wt0, wt) && AllBelow(ws, |wt|)
    requires RoomsBelow(rooms, |ct|) && AllBelow(room.corners, |ct|)
    requires SidesSoFar(ct, wt0, wt, ws, rooms)
    requires var picks := Picks(ct, wt, room.corners);
      RoomBuilt(wt2, et2, picks, SlotsOf(picks, |et|), |room.corners|, wt, et)
    ensures RoomsBelow(rooms + [room], |ct|) && SameButSides(wt, wt2)
    ensures SidesSoFar(ct, wt0, wt2, ws, rooms + [room])
  {
    var cs := room.corners;
    var picks := Picks(ct, wt, cs);
    assert picks[..|cs|] == picks;
    assert WallsBuilt(wt2, picks, SlotsOf(picks, |et|), wt);
    forall k | 0 <= k < |ws|
      ensures !wt2[ws[k]].orphan && (NoSides(wt2[ws[k]]) <==> !OnRooms(ct, wt0, rooms + [room], ws[k]))
    {
      NewRoomSides(ct, wt0, wt, wt2, et, et2, cs, ws[k]);
      OnRoomsSnoc(ct, wt0, rooms, room, ws[k]);
    }
  }

  /** Once the orphan walls got their half-edges, the plan is settled. */
  lemma SettledAfterOrphans(ct: seq<Corner>, wt0: seq<Wall>, wt1: seq<Wall>, wt2: seq<Wall>, ws: seq<WallRef>, rooms: seq<Room>)
    requires GraphOk(ct, wt0) && SameButSides(wt0, wt1) && SameButSides(wt1, wt2)
    requires AllBelow(ws, |wt0|) && RoomsBelow(rooms, |ct|)
    requires RoomsFound(ct, wt0, rooms) && SidesSoFar(ct, wt0, wt1, ws, rooms)
    requires forall w :: 0 <= w < |wt1| ==>
      if w in ws && NoSides(wt1[w]) then wt2[w].orphan && wt2[w].frontEdge.Some? && wt2[w].backEdge.Some?
      else wt2[w] == wt1[w]
    ensures GraphOk(ct, wt2) && Settled(ct, wt2, ws, rooms)
  {
    SameButSidesEnds(wt0, wt1);
    SameButSidesEnds(wt1, wt2);
    assert SameEnds(wt0, wt2);
    RoomsFoundSameEnds(ct, wt0, wt2, rooms);
    forall k | 0 <= k < |ws| ensures OnRooms(ct, wt0, rooms, ws[k]) <==> OnRooms(ct, wt2, rooms, ws[k]) {
      OnRoomsSameEnds(ct, wt0, wt2, rooms, ws[k]);
    }
    forall k | 0 <= k < |ws|
      ensures && !NoSides(wt2[ws[k]])
              && (wt2[ws[k]].orphan <==> !OnRooms(ct, wt2, rooms, ws[k]))
              && (wt2[ws[k]].orphan ==> wt2[ws[k]].frontEdge.Some? && wt2[ws[k]].backEdge.Some?)
    {
      assert ws[k] in ws;
    }
  }

  /** After `update`: every listed wall has a half-edge; it is an orphan exactly when no
      room built one on it, and an orphan has both. */
  predicate SidesAssigned(ct: seq<Corner>, wt: seq<Wall>, ws: seq<WallRef>, rooms: seq<Room>)
    requires CornerListsOk(ct, |wt|) && AllBelow(ws, |wt|) && RoomsBelow(rooms, |ct|)
  {
    forall k :: 0 <= k < |ws| ==>
      && !NoSides(wt[ws[k]])
      && (wt[ws[k]].orphan <==> !OnRooms(ct, wt, rooms, ws[k]))
      && (wt[ws[k]].orphan ==> wt[ws[k]].frontEdge.Some? && wt[ws[k]].backEdge.Some?)
  }

  /** The corner lists of the rooms. */
  function RoomCorners(rooms: seq<Room>): (r: seq<seq<CornerRef>>)
    ensures |r| == |rooms|
    ensures forall i :: 0 <= i < |rooms| ==> r[i] == rooms[i].corners
  {
    seq(|rooms|, i requires 0 <= i < |rooms| => rooms[i].corners)
  }

  /** After `update`: the rooms are what `findRooms` returns: clockwise cycles of the plan
      graph, none a rotation of another. */
  predicate RoomsFound(ct: seq<Corner>, wt: seq<Wall>, rooms: seq<Room>)
    requires GraphOk(ct, wt) && RoomsBelow(rooms, |ct|)
  {
    && (forall i :: 0 <= i < |rooms| ==>
          IsCycle(ct, wt, rooms[i].corners) && IsClockwise(RoomPoints(ct, rooms[i].corners)))
    && NoRotations(RoomCorners(rooms))
  }

  /** Rooms and half-edges are up to date with the plan graph. */
  predicate Settled(ct: seq<Corner>, wt: seq<Wall>, ws: seq<WallRef>, rooms: seq<Room>)
    requires GraphOk(ct, wt) && AllBelow(ws, |wt|) && RoomsBelow(rooms, |ct|)
  {
    RoomsFound(ct, wt, rooms) && SidesAssigned(ct, wt, ws, rooms)
  }

  /** Adjacency reads only the corners of the walls. */
  lemma AdjacentSameEnds(ct: seq<Corner>, wt: seq<Wall>, wt2: seq<Wall>, c: CornerRef)
    requires GraphOk(ct, wt) && SameEnds(wt, wt2) && c < |ct|
    ensures AdjacentCorners(wt, ct[c]) == AdjacentCorners(wt2, ct[c])
  {
    AdjacentInTable(ct, wt, c);
    assert Ends(wt, ct[c].wallStarts) == Ends(wt2, ct[c].wallStarts);
    assert Starts(wt, ct[c].wallEnds) == Starts(wt2, ct[c].wallEnds);
  }

  /** So the rooms found stay found when only half-edges change. */
  lemma RoomsFoundSameEnds(ct: seq<Corner>, wt: seq<Wall>, wt2: seq<Wall>, rooms: seq<Room>)
    requires GraphOk(ct, wt) && SameEnds(wt, wt2) && RoomsBelow(rooms, |ct|)
    requires RoomsFound(ct, wt, rooms)
    ensures GraphOk(ct, wt2) && RoomsFound(ct, wt2, rooms)
  {
    forall i, k | 0 <= i < |rooms| && 0 <= k < |rooms[i].corners|
      ensures AdjacentCorners(wt, ct[rooms[i].corners[k]]) == AdjacentCorners(wt2, ct[rooms[i].corners[k]])
    {
      AdjacentSameEnds(ct, wt, wt2, rooms[i].corners[k]);
    }
    forall i | 0 <= i < |rooms| ensures IsCycle(ct, wt2, rooms[i].corners) {
      var loop := rooms[i].corners + [rooms[i].corners[0]];
      assert IsWalk(ct, wt, loop);
      forall k | 0 <= k < |loop| - 1 ensures RoomSearch.Linked(ct, wt2, loop[k], loop[k + 1]) {
        assert RoomSearch.Linked(ct, wt, loop[k], loop[k + 1]);
      }
    }
  }

  /** And so does which rooms use which wall. */
  lemma OnRoomsSameEnds(ct: seq<Corner>, wt: seq<Wall>, wt2: seq<Wall>, rooms: seq<Room>, w: WallRef)
    requires CornerListsOk(ct, |wt|) && SameEnds(wt, wt2) && RoomsBelow(rooms, |ct|)
    ensures CornerListsOk(ct, |wt2|)
    ensures OnRooms(ct, wt, rooms, w) <==> OnRooms(ct, wt2, rooms, w)
  {
    forall r | 0 <= r < |rooms| ensures Picks(ct, wt, rooms[r].corners) == Picks(ct, wt2, rooms[r].corners) {
      PicksSameEnds(ct, wt, wt2, rooms[r].corners);
    }
    if OnRooms(ct, wt, rooms, w) {
      var r, j :| 0 <= r < |rooms| && 0 <= j < |rooms[r].corners| && OnWall(PickSide(ct, wt, rooms[r].corners, j), w);
      assert Picks(ct, wt, rooms[r].corners)[j] == Picks(ct, wt2, rooms[r].corners)[j];
      assert CycleUses(ct, wt2, rooms[r].corners, w);
    }
    if OnRooms(ct, wt2, rooms, w) {
      var r, j :| 0 <= r < |rooms| && 0 <= j < |rooms[r].corners| && OnWall(PickSide(ct, wt2, rooms[r].corners, j), w);
      assert Picks(ct, wt, rooms[r].corners)[j] == Picks(ct, wt2, rooms[r].corners)[j];
      assert CycleUses(ct, wt, rooms[r].corners, w);
    }
  }

  // ---------------------------------------------------------------------------------------
  // The scans of mergeWithIntersected

  /** A corner other than `nc` within the corner tolerance of `nc`. */
  predicate CornerClose(ct: seq<Corner>, nc: CornerRef, c: CornerRef)
    requires nc < |ct| && c < |ct|
  {
    Below(DistanceSq(ct[c].x, ct[c].y, ct[nc].x, ct[nc].y), CornerTolerance) && c != nc
  }

  /** The first position from `j` on of a corner close to `nc`, if any. */
  function CloseCornerFrom(ct: seq<Corner>, cs: seq<CornerRef>, nc: CornerRef, j: nat): (r: Option<nat>)
    requires nc < |ct| && AllBelow(cs, |ct|)
    ensures r.Some? ==> j <= r.value < |cs| && CornerClose(ct, nc, cs[r.value])
    ensures r.Some? ==> forall k :: j <= k < r.value ==> !CornerClose(ct, nc, cs[k])
    ensures r.None? ==> forall k :: j <= k < |cs| ==> !CornerClose(ct, nc, cs[k])
    decreases |cs| - j
  {
    if j >= |cs| then None
    else if CornerClose(ct, nc, cs[j]) then Some(j)
    else CloseCornerFrom(ct, cs, nc, j + 1)
  }

  /** A wall within the corner tolerance of `nc` that `nc` does not list. */
  predicate WallClose(ct: seq<Corner>, wt: seq<Wall>, nc: CornerRef, w: WallRef)
    requires nc < |ct| && w < |wt| && WallCornersOk(wt, |ct|)
  {
    var s := ct[wt[w].start];
    var e := ct[wt[w].end];
    && Below(PointDistanceSqFromLine(ct[nc].x, ct[nc].y, s.x, s.y, e.x, e.y), CornerTolerance)
    && w !in ct[nc].wallStarts && w !in ct[nc].wallEnds
  }

  /** The first position from `i` on of a wall close to `nc`, if any. */
  function CloseWallFrom(ct: seq<Corner>, wt: seq<Wall>, ws: seq<WallRef>, nc: CornerRef, i: nat): (r: Option<nat>)
    requires nc < |ct| && AllBelow(ws, |wt|) && WallCornersOk(wt, |ct|)
    ensures r.Some? ==> i <= r.value < |ws| && WallClose(ct, wt, nc, ws[r.value])
    ensures r.Some? ==> forall k :: i <= k < r.value ==> !WallClose(ct, wt, nc, ws[k])
    ensures r.None? ==> forall k :: i <= k < |ws| ==> !WallClose(ct, wt, nc, ws[k])
    decreases |ws| - i
  {
    if i >= |ws| then None
    else if WallClose(ct, wt, nc, ws[i]) then Some(i)
    else CloseWallFrom(ct, wt, ws, nc, i + 1)
  }

  /** The tolerance `overlappedCorner` and `overlappedWall` use: `tolerance || 10`. */
  function HitTolerance(tolerance: Option<real>): (t: real)
    ensures tolerance.None? || tolerance.value == 0.0 ==> t == DefaultTolerance
    ensures tolerance.Some? && tolerance.value != 0.0 ==> t == tolerance.value
  {
    if tolerance.None? || tolerance.value == 0.0 then DefaultTolerance else tolerance.value
  }

  /** A list whose members all come from a list of references below `n` is below `n`. */
  lemma MembersBelow(s: seq<nat>, s2: seq<nat>, n: nat)
    requires AllBelow(s, n) && forall k :: 0 <= k < |s2| ==> s2[k] in s
    ensures AllBelow(s2, n)
  {
  }

  /** Removing a reference keeps a list below `n`. */
  lemma WithoutBelow(s: seq<nat>, v: nat, n: nat)
    requires AllBelow(s, n)
    ensures AllBelow(Without(s, v), n)
  {
    forall k | 0 <= k < |Without(s, v)| ensures Without(s, v)[k] in s {
      WithoutMembers(s, v, Without(s, v)[k]);
    }
  }

  /** Dropping deleted corners and walls from the lists keeps a settled plan settled. */
  lemma LiveListsKeepPlan(ct: seq<Corner>, wt: seq<Wall>, et: seq<HalfEdge>, cs: seq<CornerRef>, ws: seq<WallRef>, rooms: seq<Room>)
    requires PlanOk(ct, wt, et, cs, ws, rooms) && Settled(ct, wt, ws, rooms)
    ensures PlanOk(ct, wt, et, LiveCorners(ct, cs), LiveWalls(wt, ws), rooms)
    ensures Settled(ct, wt, LiveWalls(wt, ws), rooms)
  {
    MembersBelow(cs, LiveCorners(ct, cs), |ct|);
    SidesAssignedSublist(ct, wt, ws, LiveWalls(wt, ws), rooms);
  }

  /** Dropping walls from the list keeps the sides assigned. */
  lemma SidesAssignedSublist(ct: seq<Corner>, wt: seq<Wall>, ws: seq<WallRef>, ws2: seq<WallRef>, rooms: seq<Room>)
    requires CornerListsOk(ct, |wt|) && AllBelow(ws, |wt|) && RoomsBelow(rooms, |ct|)
    requires SidesAssigned(ct, wt, ws, rooms)
    requires forall k :: 0 <= k < |ws2| ==> ws2[k] in ws
    ensures AllBelow(ws2, |wt|) && SidesAssigned(ct, wt, ws2, rooms)
  {
    forall k | 0 <= k < |ws2| ensures ws2[k] < |wt| {
      var j :| 0 <= j < |ws| && ws[j] == ws2[k];
    }
    forall k | 0 <= k < |ws2|
      ensures && !NoSides(wt[ws2[k]])
              && (wt[ws2[k]].orphan <==> !OnRooms(ct, wt, rooms, ws2[k]))
              && (wt[ws2[k]].orphan ==> wt[ws2[k]].frontEdge.Some? && wt[ws2[k]].backEdge.Some?)
    {
      var j :| 0 <= j < |ws| && ws[j] == ws2[k];
    }
  }

  // ---------------------------------------------------------------------------------------
  // cleanUp

  /** The corners of `cs` not deleted, in order (`filter((corner) => !corner.deleted)`). */
  function LiveCorners(ct: seq<Corner>, cs: seq<CornerRef>): (r: seq<CornerRef>)
    requires AllBelow(cs, |ct|)
    ensures |r| <= |cs|
    ensures forall k :: 0 <= k < |r| ==> r[k] in cs && !ct[r[k]].deleted
    ensures forall k :: 0 <= k < |cs| && !ct[cs[k]].deleted ==> cs[k] in r
  {
    Keep(cs, (c: CornerRef) => c < |ct| && !ct[c].deleted)
  }

  /** The walls of `ws` not deleted, in order. */
  function LiveWalls(wt: seq<Wall>, ws: seq<WallRef>): (r: seq<WallRef>)
    requires AllBelow(ws, |wt|)
    ensures |r| <= |ws|
    ensures forall k :: 0 <= k < |r| ==> r[k] in ws && !wt[r[k]].deleted
    ensures forall k :: 0 <= k < |ws| && !wt[ws[k]].deleted ==> ws[k] in r
  {
    Keep(ws, (w: WallRef) => w < |wt| && !wt[w].deleted)
  }
}
