/** `FloorPlan` (src/components/2d/FloorPlan.ts) together with the methods of `Corner`,
    `Wall`, `HalfEdge` and `Room` that change the plan. The floor plan owns one table per
    kind of object, holding every object ever created (an object is its index there), and
    the lists of live corners, walls and rooms the editor draws and searches. */
module FloorPlans {
  import opened Wrappers
  import opened Utils
  import opened Utils2D
  import opened Graph
  import opened RoomSearch
  import opened Incidence
  import opened Rooms
  import opened PlanState
  import opened WallDedup

  class FloorPlan {
    var id: string
    /** Every corner, wall and half-edge created, by index. */
    var cornerTable: seq<Corner>
    var wallTable: seq<Wall>
    var edgeTable: seq<HalfEdge>
    /** `corners`, `walls`, `rooms`: what the plan holds now. */
    var corners: seq<CornerRef>
    var walls: seq<WallRef>
    var rooms: seq<Room>
    /** `Utils2D.angle2pi` and the trigonometric tail of `halfAngleVector`. */
    const angle2pi: Angle
    const turn: Turn

    predicate Valid()
      reads this
    {
      PlanOk(cornerTable, wallTable, edgeTable, corners, walls, rooms)
    }

    /** `new FloorPlan()`: an empty plan named by a fresh guid. */
    constructor(guid: string, angle2pi: Angle, turn: Turn)
      ensures Valid()
      ensures id == guid && corners == [] && walls == [] && rooms == []
      ensures cornerTable == [] && wallTable == [] && edgeTable == []
      ensures this.angle2pi == angle2pi && this.turn == turn
    {
      id := guid;
      cornerTable := [];
      wallTable := [];
      edgeTable := [];
      corners := [];
      walls := [];
      rooms := [];
      this.angle2pi := angle2pi;
      this.turn := turn;
    }

    // -------------------------------------------------------------------------------------
    // Corners

    /** `newCorner`: a corner with no walls, named `cornerId`, or the fresh `guid` when no
        id is given, appended to the plan. */
    method NewCorner(x: real, y: real, cornerId: string, guid: string) returns (c: CornerRef)
      requires Valid() && guid != ""
      modifies this`cornerTable, this`corners
      ensures Valid()
      ensures c == old(|cornerTable|)
      ensures cornerTable == old(cornerTable) + [Corner(if cornerId != "" then cornerId else guid, x, y, [], [], false)]
      ensures corners == old(corners) + [c]
    {
      c := |cornerTable|;
      cornerTable := cornerTable + [Corner(if cornerId != "" then cornerId else guid, x, y, [], [], false)];
      corners := corners + [c];
    }

    /** `Corner.attachStart`. */
    method AttachStart(c: CornerRef, w: WallRef)
      requires c < |cornerTable|
      modifies this`cornerTable
      ensures cornerTable == old(cornerTable)[c := WithStart(old(cornerTable)[c], w)]
    {
      cornerTable := cornerTable[c := WithStart(cornerTable[c], w)];
    }

    /** `Corner.attachEnd`. */
    method AttachEnd(c: CornerRef, w: WallRef)
      requires c < |cornerTable|
      modifies this`cornerTable
      ensures cornerTable == old(cornerTable)[c := WithEnd(old(cornerTable)[c], w)]
    {
      cornerTable := cornerTable[c := WithEnd(cornerTable[c], w)];
    }

    /** `Corner.remove`: only the deleted flag. */
    method CornerRemove(c: CornerRef)
      requires c < |cornerTable|
      modifies this`cornerTable
      ensures cornerTable == old(cornerTable)[c := old(cornerTable)[c].(deleted := true)]
    {
      cornerTable := cornerTable[c := cornerTable[c].(deleted := true)];
    }

    /** `Corner.detachWall`: `w` spliced out of both lists, and the corner deleted once it
        has no walls left. The invariant is kept. */
    method DetachWall(c: CornerRef, w: WallRef)
      requires Valid() && c < |cornerTable|
      modifies this`cornerTable
      ensures Valid()
      ensures cornerTable == Detached(old(cornerTable), c, w)
    {
      var starts := RemoveValue(cornerTable[c].wallStarts, w);
      cornerTable := cornerTable[c := cornerTable[c].(wallStarts := starts)];
      var ends := RemoveValue(cornerTable[c].wallEnds, w);
      cornerTable := cornerTable[c := cornerTable[c].(wallEnds := ends)];
      if |cornerTable[c].wallStarts| == 0 && |cornerTable[c].wallEnds| == 0 {
        CornerRemove(c);
      }
      assert cornerTable == Detached(old(cornerTable), c, w);
      DetachKeepsIncidence(old(cornerTable), wallTable, c, w);
      CornersKeepPlan(old(cornerTable), cornerTable, wallTable, edgeTable, corners, walls, rooms);
    }

    /** `Corner.removeAll`: a forward loop removing the start walls, then one removing the
        end walls, then the corner marked deleted. `Wall.remove` splices the list each loop
        walks, so each loop steps over every other wall (RemovedByRemoveAll). */
    method RemoveAll(c: CornerRef)
      requires Valid() && c < |cornerTable|
      modifies this`cornerTable, this`wallTable
      ensures Valid()
      ensures Stripped(old(cornerTable), cornerTable, RemovedByRemoveAll(old(cornerTable)[c]))
      ensures WallsRemoved(old(wallTable), wallTable, RemovedByRemoveAll(old(cornerTable)[c]))
      ensures cornerTable[c].deleted
      ensures old(cornerTable)[c].wallStarts == [] && old(cornerTable)[c].wallEnds == [] ==>
        cornerTable == old(cornerTable)[c := old(cornerTable)[c].(deleted := true)] && wallTable == old(wallTable)
    {
      ghost var ct0, wt0 := cornerTable, wallTable;
      StrippedNothing(ct0);
      RemoveStartWalls(c, ct0, wt0, {});
      ghost var fromStarts := Elems(EveryOther(ct0[c].wallStarts));
      assert {} + fromStarts == fromStarts;
      RemoveEndWalls(c, ct0, wt0, fromStarts);
      ghost var ct1 := cornerTable;
      CornerRemove(c);
      StrippedMarked(ct0, ct1, RemovedByRemoveAll(ct0[c]), c);
      SameListsKeepIncidence(ct1, cornerTable, wallTable);
      CornersKeepPlan(ct1, cornerTable, wallTable, edgeTable, corners, walls, rooms);
    }

    /** The first loop of `removeAll`: `wallStarts[i].remove()` for `i` counting up while
        the list shrinks, which removes the start walls at even positions. */
    method RemoveStartWalls(c: CornerRef, ghost ct0: seq<Corner>, ghost wt0: seq<Wall>, ghost drop0: set<WallRef>)
      requires Valid() && c < |cornerTable|
      requires Stripped(ct0, cornerTable, drop0) && WallsRemoved(wt0, wallTable, drop0)
      modifies this`cornerTable, this`wallTable
      ensures Valid()
      ensures var drop := drop0 + Elems(EveryOther(old(cornerTable)[c].wallStarts));
        Stripped(ct0, cornerTable, drop) && WallsRemoved(wt0, wallTable, drop)
      ensures old(cornerTable)[c].wallStarts == [] ==> cornerTable == old(cornerTable) && wallTable == old(wallTable)
    {
      ghost var starts := cornerTable[c].wallStarts;
      ghost var drop := drop0;
      ghost var j := 0;
      var i := 0;
      while i < |cornerTable[c].wallStarts|
        invariant Valid()
        invariant Sweep(ct0, wt0, cornerTable, wallTable, c, true, starts, i, j, drop0, drop)
        invariant i == 0 ==> cornerTable == old(cornerTable) && wallTable == old(wallTable)
        decreases |starts| - j
      {
        ghost var w := RemoveListedWall(c, true, ct0, wt0, starts, i, j, drop0, drop);
        j := if 2 * i + 2 <= |starts| then 2 * i + 2 else |starts|;
        drop := drop + {w};
        i := i + 1;
      }
      SweepDone(ct0, wt0, cornerTable, wallTable, c, true, starts, i, j, drop0, drop);
    }

    /** One `wall.remove()` of `removeAll`'s loops, on the wall at index `i` of `c`'s start
        (or end) list. */
    method RemoveListedWall(c: CornerRef, fromStarts: bool, ghost ct0: seq<Corner>, ghost wt0: seq<Wall>,
                            ghost s: seq<WallRef>, i: nat, ghost j: nat, ghost drop0: set<WallRef>, ghost drop: set<WallRef>)
      returns (ghost w: WallRef)
      requires Valid() && Sweep(ct0, wt0, cornerTable, wallTable, c, fromStarts, s, i, j, drop0, drop)
      requires i < |Listed(cornerTable[c], fromStarts)|
      modifies this`cornerTable, this`wallTable
      ensures Valid()
      ensures Sweep(ct0, wt0, cornerTable, wallTable, c, fromStarts, s, i + 1,
                    if 2 * i + 2 <= |s| then 2 * i + 2 else |s|, drop0, drop + {w})
    {
      ghost var ct1, wt1 := cornerTable, wallTable;
      SweepStep(ct0, wt0, cornerTable, wallTable, c, fromStarts, s, i, j, drop0, drop);
      var v := if fromStarts then cornerTable[c].wallStarts[i] else cornerTable[c].wallEnds[i];
      WallRemove(v);
      w := v;
      assert cornerTable == Detached(Detached(ct1, wt1[w].start, w), wt1[w].end, w);
      assert wallTable == wt1[w := wt1[w].(deleted := true)];
    }

    /** The second loop of `removeAll`, over the end walls left after the first. */
    method RemoveEndWalls(c: CornerRef, ghost ct0: seq<Corner>, ghost wt0: seq<Wall>, ghost drop0: set<WallRef>)
      requires Valid() && c < |cornerTable| && c < |ct0|
      requires Stripped(ct0, cornerTable, drop0) && WallsRemoved(wt0, wallTable, drop0)
      modifies this`cornerTable, this`wallTable
      ensures Valid()
      ensures var drop := drop0 + Elems(EveryOther(Except(ct0[c].wallEnds, drop0)));
        Stripped(ct0, cornerTable, drop) && WallsRemoved(wt0, wallTable, drop)
      ensures old(cornerTable)[c].wallEnds == [] ==> cornerTable == old(cornerTable) && wallTable == old(wallTable)
    {
      ghost var ends := cornerTable[c].wallEnds;
      ghost var drop := drop0;
      ghost var j := 0;
      var i := 0;
      while i < |cornerTable[c].wallEnds|
        invariant Valid()
        invariant Sweep(ct0, wt0, cornerTable, wallTable, c, false, ends, i, j, drop0, drop)
        invariant i == 0 ==> cornerTable == old(cornerTable) && wallTable == old(wallTable)
        decreases |ends| - j
      {
        ghost var w := RemoveListedWall(c, false, ct0, wt0, ends, i, j, drop0, drop);
        j := if 2 * i + 2 <= |ends| then 2 * i + 2 else |ends|;
        drop := drop + {w};
        i := i + 1;
      }
      SweepDone(ct0, wt0, cornerTable, wallTable, c, false, ends, i, j, drop0, drop);
    }

    // -------------------------------------------------------------------------------------
    // Walls

    /** `Wall.createWall`: a wall of the default thickness and height from `s` to `e`,
        named after its corners, registered with both. */
    method CreateWall(s: CornerRef, e: CornerRef) returns (w: WallRef)
      requires Valid() && s < |cornerTable| && e < |cornerTable|
      modifies this`cornerTable, this`wallTable
      ensures Valid()
      ensures w == old(|wallTable|)
      ensures wallTable == old(wallTable) + [Wall(GenerateId(old(cornerTable)[s].id, old(cornerTable)[e].id),
        s, e, DefaultWallThickness, DefaultWallHeight, None, None, false, false)]
      ensures cornerTable == Registered(old(cornerTable), s, e, w)
    {
      w := |wallTable|;
      var wall := Wall(GenerateId(cornerTable[s].id, cornerTable[e].id),
        s, e, DefaultWallThickness, DefaultWallHeight, None, None, false, false);
      wallTable := wallTable + [wall];
      AttachStart(s, w);
      AttachEnd(e, w);
      RegisterKeepsIncidence(old(cornerTable), old(wallTable), s, e, wall);
    }

    /** `Wall.remove`: detached from its start, then from its end, and marked deleted. */
    method WallRemove(w: WallRef)
      requires Valid() && w < |wallTable|
      modifies this`cornerTable, this`wallTable
      ensures Valid()
      ensures cornerTable == Detached(Detached(old(cornerTable), old(wallTable)[w].start, w), old(wallTable)[w].end, w)
      ensures wallTable == old(wallTable)[w := old(wallTable)[w].(deleted := true)]
    {
      DetachWall(wallTable[w].start, w);
      DetachWall(wallTable[w].end, w);
      WallDeletedKeepsPlan(cornerTable, wallTable, edgeTable, corners, walls, rooms, w);
      wallTable := wallTable[w := wallTable[w].(deleted := true)];
    }

    /** `Wall.setStart`: detached from its old start, appended to `c`'s start walls, and
        re-pointed. */
    method SetStart(w: WallRef, c: CornerRef)
      requires Valid() && w < |wallTable| && c < |cornerTable|
      modifies this`cornerTable, this`wallTable
      ensures Valid()
      ensures var ct1 := Detached(old(cornerTable), old(wallTable)[w].start, w);
        cornerTable == ct1[c := WithStart(ct1[c], w)]
      ensures wallTable == old(wallTable)[w := old(wallTable)[w].(start := c)]
    {
      DetachWall(wallTable[w].start, w);
      AttachStart(c, w);
      wallTable := wallTable[w := wallTable[w].(start := c)];
      SetStartKeepsIncidence(old(cornerTable), old(wallTable), w, c);
    }

    /** `Wall.setEnd`, symmetrically. */
    method SetEnd(w: WallRef, c: CornerRef)
      requires Valid() && w < |wallTable| && c < |cornerTable|
      modifies this`cornerTable, this`wallTable
      ensures Valid()
      ensures var ct1 := Detached(old(cornerTable), old(wallTable)[w].end, w);
        cornerTable == ct1[c := WithEnd(ct1[c], w)]
      ensures wallTable == old(wallTable)[w := old(wallTable)[w].(end := c)]
    {
      DetachWall(wallTable[w].end, w);
      AttachEnd(c, w);
      wallTable := wallTable[w := wallTable[w].(end := c)];
      SetEndKeepsIncidence(old(cornerTable), old(wallTable), w, c);
    }

    /** One of `combineCorners`' two loops: walking `c`'s start walls (or end walls) from
        the last to the first, each wall is given `t` as its start (end) by `setStart`
        (`setEnd`). */
    method MoveWallsTo(t: CornerRef, c: CornerRef, fromStarts: bool)
      requires Valid() && t < |cornerTable| && c < |cornerTable|
      modifies this`cornerTable, this`wallTable
      ensures Valid()
      ensures Absorbing(old(cornerTable), old(wallTable), cornerTable, wallTable, t, c, fromStarts, 0)
    {
      ghost var ct0, wt0 := cornerTable, wallTable;
      AbsorbingStart(ct0, wt0, t, c, fromStarts);
      var k: nat := |Listed(cornerTable[c], fromStarts)|;
      while 0 < k
        invariant Valid() && ListsDistinct(ct0)
        invariant Absorbing(ct0, wt0, cornerTable, wallTable, t, c, fromStarts, k)
        decreases k
      {
        MoveListedWallTo(t, c, fromStarts, k, ct0, wt0);
        k := k - 1;
      }
    }

    /** One round of `MoveWallsTo`: the wall at index `k - 1` of `c`'s list is given `t`
        as its start (or end). */
    method MoveListedWallTo(t: CornerRef, c: CornerRef, fromStarts: bool, k: nat, ghost ct0: seq<Corner>, ghost wt0: seq<Wall>)
      requires Valid() && ListsDistinct(ct0) && 0 < k
      requires Absorbing(ct0, wt0, cornerTable, wallTable, t, c, fromStarts, k)
      modifies this`cornerTable, this`wallTable
      ensures Valid()
      ensures Absorbing(ct0, wt0, cornerTable, wallTable, t, c, fromStarts, k - 1)
    {
      ghost var ct1, wt1 := cornerTable, wallTable;
      AbsorbingNext(ct0, wt0, cornerTable, wallTable, t, c, fromStarts, k);
      ListedWall(cornerTable, wallTable, c, fromStarts, k - 1);
      AbsorbingStep(ct0, wt0, cornerTable, wallTable, t, c, fromStarts, k);
      var w := Listed(cornerTable[c], fromStarts)[k - 1];
      if fromStarts {
        SetStart(w, t);
      } else {
        SetEnd(w, t);
      }
      assert cornerTable == Resettled(ct1, c, t, w, fromStarts);
      assert wallTable == wt1[w := Repointed(wt1[w], fromStarts, t)];
    }

    /** `Wall.resetFrontBack`. */
    method ResetFrontBack(w: WallRef)
      requires Valid() && w < |wallTable|
      modifies this`wallTable
      ensures Valid()
      ensures wallTable == old(wallTable)[w := old(wallTable)[w].(frontEdge := None, backEdge := None, orphan := false)]
    {
      wallTable := wallTable[w := wallTable[w].(frontEdge := None, backEdge := None, orphan := false)];
    }

    /** `new HalfEdge(wall, front)`: an unlinked half-edge on that side, which the wall's
        side now points to. */
    method NewHalfEdge(w: WallRef, front: bool) returns (e: EdgeRef)
      requires Valid() && w < |wallTable|
      modifies this`edgeTable, this`wallTable
      ensures Valid()
      ensures e == old(|edgeTable|)
      ensures edgeTable == old(edgeTable) + [EdgeFor(old(wallTable), Side(w, front), None, None)]
      ensures wallTable == old(wallTable)[w := if front then old(wallTable)[w].(frontEdge := Some(e))
                                                        else old(wallTable)[w].(backEdge := Some(e))]
    {
      e := |edgeTable|;
      edgeTable := edgeTable + [HalfEdge(w, front, None, None, wallTable[w].thickness / 2.0, wallTable[w].height)];
      if front {
        wallTable := wallTable[w := wallTable[w].(frontEdge := Some(e))];
      } else {
        wallTable := wallTable[w := wallTable[w].(backEdge := Some(e))];
      }
    }

    // -------------------------------------------------------------------------------------
    // Snapping

    /** The loop of `Corner.snapToAxis`: each adjacent corner in turn pulls the corner's
        x, then its y, onto its own when within the tolerance, against the corner's live
        position (an adjacent corner that is the corner itself, through a wall back to
        itself, reads that live position). What it computes is `SnapOver` from the corner's
        position. */
    method SnapTarget(c: CornerRef, tolerance: real) returns (x: real, y: real, snappedX: bool, snappedY: bool)
      requires GraphOk(cornerTable, wallTable) && c < |cornerTable|
      ensures AllBelow(AdjacentCorners(wallTable, cornerTable[c]), |cornerTable|)
      ensures Snap(x, y, snappedX, snappedY)
        == SnapOver(cornerTable, c, AdjacentCorners(wallTable, cornerTable[c]), tolerance,
                    Snap(cornerTable[c].x, cornerTable[c].y, false, false))
    {
      AdjacentInTable(cornerTable, wallTable, c);
      var adj := AdjacentCornersOf(wallTable, cornerTable[c]);
      x, y := cornerTable[c].x, cornerTable[c].y;
      snappedX, snappedY := false, false;
      ghost var s0 := Snap(x, y, false, false);
      for k := 0 to |adj|
        invariant SnapOver(cornerTable, c, adj[k..], tolerance, Snap(x, y, snappedX, snappedY))
               == SnapOver(cornerTable, c, adj, tolerance, s0)
      {
        var d := adj[k];
        assert adj[k..][1..] == adj[k + 1..];
        var dx := if d == c then x else cornerTable[d].x;
        if Abs(dx - x) < tolerance {
          x := dx;
          snappedX := true;
        }
        var dy := if d == c then y else cornerTable[d].y;
        if Abs(dy - y) < tolerance {
          y := dy;
          snappedY := true;
        }
      }
      assert adj[|adj|..] == [];
    }

    /** `Corner.snapToAxis`: the corner moved to `SnapTarget`; nothing else changes. */
    method CornerSnapToAxis(c: CornerRef, tolerance: real) returns (snappedX: bool, snappedY: bool)
      requires Valid() && c < |cornerTable|
      modifies this`cornerTable
      ensures Valid()
      ensures |cornerTable| == old(|cornerTable|)
      ensures cornerTable[c] == old(cornerTable)[c].(x := cornerTable[c].x, y := cornerTable[c].y)
      ensures forall k :: 0 <= k < |cornerTable| && k != c ==> cornerTable[k] == old(cornerTable)[k]
      ensures AllBelow(AdjacentCorners(wallTable, old(cornerTable)[c]), |old(cornerTable)|)
      ensures var r := SnapOver(old(cornerTable), c, AdjacentCorners(wallTable, old(cornerTable)[c]), tolerance,
                                Snap(old(cornerTable)[c].x, old(cornerTable)[c].y, false, false));
        && cornerTable == old(cornerTable)[c := old(cornerTable)[c].(x := r.x, y := r.y)]
        && snappedX == r.snappedX && snappedY == r.snappedY
    {
      var x, y;
      x, y, snappedX, snappedY := SnapTarget(c, tolerance);
      cornerTable := cornerTable[c := cornerTable[c].(x := x, y := y)];
      SameListsKeepIncidence(old(cornerTable), cornerTable, wallTable);
      CornersKeepPlan(old(cornerTable), cornerTable, wallTable, edgeTable, corners, walls, rooms);
    }

    /** `Wall.snapToAxis`: the start corner, then the end corner. Nothing but the positions
        of those two corners changes. */
    method WallSnapToAxis(w: WallRef, tolerance: real)
      requires Valid() && w < |wallTable|
      modifies this`cornerTable
      ensures Valid()
      ensures |cornerTable| == old(|cornerTable|)
      ensures forall k :: 0 <= k < |cornerTable| ==>
        cornerTable[k] == old(cornerTable)[k].(x := cornerTable[k].x, y := cornerTable[k].y)
      ensures forall k :: 0 <= k < |cornerTable| && k != wallTable[w].start && k != wallTable[w].end ==>
        cornerTable[k] == old(cornerTable)[k]
      ensures wallTable[w].start < |old(cornerTable)| && wallTable[w].end < |old(cornerTable)|
      ensures var s := wallTable[w].start;
        AllBelow(AdjacentCorners(wallTable, old(cornerTable)[s]), |old(cornerTable)|)
      ensures var s := wallTable[w].start;
        var r1 := SnapOver(old(cornerTable), s, AdjacentCorners(wallTable, old(cornerTable)[s]), tolerance,
                           Snap(old(cornerTable)[s].x, old(cornerTable)[s].y, false, false));
        var ct1 := old(cornerTable)[s := old(cornerTable)[s].(x := r1.x, y := r1.y)];
        var e := wallTable[w].end;
        && AllBelow(AdjacentCorners(wallTable, ct1[e]), |ct1|)
        && var r2 := SnapOver(ct1, e, AdjacentCorners(wallTable, ct1[e]), tolerance,
                              Snap(ct1[e].x, ct1[e].y, false, false));
           cornerTable == ct1[e := ct1[e].(x := r2.x, y := r2.y)]
    {
      var sx, sy := CornerSnapToAxis(wallTable[w].start, tolerance);
      ghost var ct1 := cornerTable;
      assert forall k :: 0 <= k < |ct1| ==> ct1[k] == old(cornerTable)[k].(x := ct1[k].x, y := ct1[k].y);
      sx, sy := CornerSnapToAxis(wallTable[w].end, tolerance);
      assert forall k :: 0 <= k < |cornerTable| ==> cornerTable[k] == ct1[k].(x := cornerTable[k].x, y := cornerTable[k].y);
    }

    // -------------------------------------------------------------------------------------
    // Rooms

    /** One pair of `updateWalls`: a half-edge on the front of `wallTo`, else on the back of
        `wallFrom`, else none; the side it is built on now points to it. */
    method CreatePairEdge(cs: seq<CornerRef>, i: nat) returns (edge: Option<EdgeRef>)
      requires Valid() && AllBelow(cs, |cornerTable|) && i < |cs|
      modifies this`wallTable, this`edgeTable
      ensures Valid()
      ensures NewSide(old(wallTable), old(edgeTable), wallTable, edgeTable, PickSide(cornerTable, old(wallTable), cs, i), edge)
    {
      var first := cornerTable[cs[i]];
      var second := cs[Wrap(i + 1, |cs|)];
      var wallTo := WallTo(wallTable, first, second);
      var wallFrom := WallFrom(wallTable, first, second);
      if wallTo.Some? {
        var e := NewHalfEdge(wallTo.value, true);
        edge := Some(e);
      } else if wallFrom.Some? {
        var e := NewHalfEdge(wallFrom.value, false);
        edge := Some(e);
      } else {
        edge := None;
      }
    }

    /** The links one pair `i` of `updateWalls` writes once its half-edge `e` is built:
        what `LinkedRing` says, touching no other half-edge. */
    method LinkPairEdge(e: EdgeRef, i: nat, n: nat, prevEdge: Option<EdgeRef>, firstEdge: Option<EdgeRef>, ghost slots: seq<Option<EdgeRef>>)
      requires Valid() && e < |edgeTable| && 1 <= i == |slots|
      requires forall j :: 0 <= j < |slots| && slots[j].Some? ==> slots[j].value < |edgeTable|
      requires prevEdge == slots[i - 1] && firstEdge == slots[0]
      modifies this`edgeTable
      ensures Valid()
      ensures edgeTable == LinkedRing(old(edgeTable), slots, n, e)
      ensures |edgeTable| == old(|edgeTable|)
      ensures forall k :: 0 <= k < |edgeTable| && k != e && prevEdge != Some(k) && firstEdge != Some(k) ==>
        edgeTable[k] == old(edgeTable)[k]
    {
      var et := edgeTable;
      et := et[e := et[e].(prev := prevEdge)];
      if prevEdge.Some? {
        et := et[prevEdge.value := et[prevEdge.value].(next := Some(e))];
        if i + 1 == n {
          if firstEdge.Some? {
            et := et[firstEdge.value := et[firstEdge.value].(prev := Some(e))];
          }
          et := et[e := et[e].(next := firstEdge)];
        }
      }
      assert et == LinkedRing(edgeTable, slots, n, e);
      LinkedRingShape(edgeTable, slots, n, e);
      EdgesKeepPlan(cornerTable, wallTable, edgeTable, et, corners, walls, rooms);
      edgeTable := et;
    }

    /** One pair `i` of `updateWalls`, from its corner to the next: a half-edge when a wall
        joins them, linked to the previous pair's (and, at the last pair, to the first) as
        `PairStep` says. */
    method BuildPair(cs: seq<CornerRef>, i: nat, prevEdge: Option<EdgeRef>, firstEdge: Option<EdgeRef>,
                     ghost picks: seq<Option<Side>>, ghost slots: seq<Option<EdgeRef>>, ghost wt0: seq<Wall>, ghost et0: seq<HalfEdge>)
      returns (edge: Option<EdgeRef>)
      requires Valid() && AllBelow(cs, |cornerTable|) && i == |slots| < |cs|
      requires |picks| == |cs| && picks[i] == PickSide(cornerTable, wallTable, cs, i)
      requires RoomBuilt(wallTable, edgeTable, picks, slots, |cs|, wt0, et0)
      requires i > 0 ==> prevEdge == slots[i - 1] && firstEdge == slots[0]
      modifies this`wallTable, this`edgeTable
      ensures Valid()
      ensures RoomBuilt(wallTable, edgeTable, picks, slots + [edge], |cs|, wt0, et0)
    {
      ghost var et1 := edgeTable;
      ghost var wt1 := wallTable;
      RoomBuiltBelow(wallTable, edgeTable, picks, slots, |cs|, wt0, et0);
      edge := CreatePairEdge(cs, i);
      ghost var et := edgeTable;
      if i > 0 && edge.Some? {
        LinkPairEdge(edge.value, i, |cs|, prevEdge, firstEdge, slots);
      }
      PairBuilt(wt1, et1, wallTable, et, edgeTable, picks, slots, |cs|, edge, wt0, et0);
    }

    /** `Room.updateWalls`: a half-edge for each pair of consecutive corners (the last with
        the first) that a wall joins, on the side `PickSide` names, which then points to it,
        linked into a ring (`RoomBuilt` once all pairs are done); the result is the first
        pair's half-edge. */
    method UpdateWalls(cs: seq<CornerRef>) returns (edgePointer: Option<EdgeRef>)
      requires Valid() && AllBelow(cs, |cornerTable|)
      modifies this`wallTable, this`edgeTable
      ensures Valid()
      ensures var picks := Picks(cornerTable, old(wallTable), cs);
        var slots := SlotsOf(picks, old(|edgeTable|));
        && RoomBuilt(wallTable, edgeTable, picks, slots, |cs|, old(wallTable), old(edgeTable))
        && edgePointer == if cs == [] then None else slots[0]
    {
      ghost var wt0 := wallTable;
      ghost var picks := Picks(cornerTable, wallTable, cs);
      ghost var slots: seq<Option<EdgeRef>> := [];
      var n := |cs|;
      var prevEdge: Option<EdgeRef> := None;
      var firstEdge: Option<EdgeRef> := None;
      for i := 0 to n
        invariant Valid() && |slots| == i
        invariant RoomBuilt(wallTable, edgeTable, picks, slots, n, wt0, old(edgeTable))
        invariant if i == 0 then firstEdge.None? else prevEdge == slots[i - 1] && firstEdge == slots[0]
      {
        RoomBuiltBelow(wallTable, edgeTable, picks, slots, n, wt0, old(edgeTable));
        PicksSameEnds(cornerTable, wt0, wallTable, cs);
        var edge := BuildPair(cs, i, prevEdge, firstEdge, picks, slots, wt0, old(edgeTable));
        if i == 0 {
          firstEdge := edge;
        }
        prevEdge := edge;
        slots := slots + [edge];
      }
      assert picks[..n] == picks;
      assert slots == SlotsOf(picks, old(|edgeTable|)) by {
        assert EdgesBuilt(edgeTable, picks, slots, n, wt0, old(edgeTable));
      }
      edgePointer := firstEdge;
    }

    /** `new Room({corners})`: `updateWalls`, then `updateInteriorCorners`, which reads the
        room's inner outline off the ring just built. */
    method NewRoom(cs: seq<CornerRef>) returns (room: Room)
      requires Valid() && AllBelow(cs, |cornerTable|)
      modifies this`wallTable, this`edgeTable
      ensures Valid()
      ensures var picks := Picks(cornerTable, old(wallTable), cs);
        var slots := SlotsOf(picks, old(|edgeTable|));
        && RoomBuilt(wallTable, edgeTable, picks, slots, |cs|, old(wallTable), old(edgeTable))
        && (forall j :: 0 <= j < |slots| && slots[j].Some? ==> slots[j].value < |edgeTable|)
        && room == Room(cs, InteriorWalk(cornerTable, wallTable, edgeTable, slots, angle2pi, turn),
                        if cs == [] then None else slots[0], false)
    {
      var edgePointer := UpdateWalls(cs);
      ghost var picks := Picks(cornerTable, old(wallTable), cs);
      ghost var slots := SlotsOf(picks, old(|edgeTable|));
      RoomBuiltBelow(wallTable, edgeTable, picks, slots, |cs|, old(wallTable), old(edgeTable));
      RingWalkLinks(edgeTable, old(wallTable), picks, slots);
      var pts := InteriorCorners(cornerTable, wallTable, edgeTable, edgePointer, slots, angle2pi, turn);
      room := Room(cs, pts, edgePointer, false);
    }

    /** `assignOrphanEdges`: every listed wall with no half-edge on either side becomes an
        orphan and gets a back, then a front half-edge; every other wall is left alone. */
    method AssignOrphanEdges()
      requires Valid()
      modifies this`wallTable, this`edgeTable
      ensures Valid()
      ensures SameButSides(old(wallTable), wallTable)
      ensures forall w :: 0 <= w < |wallTable| ==>
        if w in walls && NoSides(old(wallTable)[w])
        then wallTable[w].orphan && wallTable[w].frontEdge.Some? && wallTable[w].backEdge.Some?
        else wallTable[w] == old(wallTable)[w]
    {
      for i := 0 to |walls|
        invariant Valid() && SameButSides(old(wallTable), wallTable)
        invariant forall w :: 0 <= w < |wallTable| ==>
          if w in walls[..i] && NoSides(old(wallTable)[w])
          then wallTable[w].orphan && wallTable[w].frontEdge.Some? && wallTable[w].backEdge.Some?
          else wallTable[w] == old(wallTable)[w]
      {
        var w := walls[i];
        assert walls[..i + 1] == walls[..i] + [w];
        if wallTable[w].backEdge.None? && wallTable[w].frontEdge.None? {
          OrphanWall(w);
        }
      }
      assert walls[..|walls|] == walls;
    }

    /** The body of `assignOrphanEdges` for a wall without half-edges: marked an orphan, with
        a new back and a new front half-edge. */
    method OrphanWall(w: WallRef)
      requires Valid() && w < |wallTable| && NoSides(wallTable[w])
      modifies this`wallTable, this`edgeTable
      ensures Valid()
      ensures |edgeTable| == old(|edgeTable|) + 2
      ensures wallTable == old(wallTable)[w := old(wallTable)[w].(orphan := true,
        backEdge := Some(old(|edgeTable|)), frontEdge := Some(old(|edgeTable|) + 1))]
    {
      ghost var wt1 := wallTable;
      wallTable := wallTable[w := wallTable[w].(orphan := true)];
      WallsKeepPlan(cornerTable, wt1, wallTable, edgeTable, corners, walls, rooms);
      var back := NewHalfEdge(w, false);
      var front := NewHalfEdge(w, true);
    }

    /** The first loop of `update`: `resetFrontBack` on every listed wall. */
    method ResetAll()
      requires Valid()
      modifies this`wallTable
      ensures Valid()
      ensures SameButSides(old(wallTable), wallTable)
      ensures forall k :: 0 <= k < |walls| ==> NoSides(wallTable[walls[k]]) && !wallTable[walls[k]].orphan
    {
      for i := 0 to |walls|
        invariant Valid() && SameButSides(old(wallTable), wallTable)
        invariant forall k :: 0 <= k < i ==> NoSides(wallTable[walls[k]]) && !wallTable[walls[k]].orphan
      {
        ResetFrontBack(walls[i]);
      }
    }

    /** `update`: every listed wall reset, the rooms found anew and built, and the walls no
        room uses given orphan half-edges. Walls change only in their sides; afterwards the
        plan is `Settled`. */
    method Update()
      requires Valid()
      modifies this`wallTable, this`edgeTable, this`rooms
      ensures Valid()
      ensures SameButSides(old(wallTable), wallTable)
      ensures Settled(cornerTable, wallTable, walls, rooms)
    {
      ResetAll();
      ghost var wt0 := wallTable;
      var roomCorners := FindRooms(cornerTable, wallTable, angle2pi, corners);
      BuildRooms(roomCorners);
      assert RoomsFound(cornerTable, wt0, rooms);
      ghost var wt1 := wallTable;
      AssignOrphanEdges();
      SettledAfterOrphans(cornerTable, wt0, wt1, wallTable, walls, rooms);
    }

    /** The rooms loop of `update`: the rooms emptied, then a room built for each cycle
        found, in order. No listed wall becomes an orphan, and one that had no half-edge has
        one exactly when a room uses it. */
    method BuildRooms(roomCorners: seq<seq<CornerRef>>)
      requires Valid() && AllRoomsBelow(roomCorners, |cornerTable|)
      requires forall k :: 0 <= k < |walls| ==> NoSides(wallTable[walls[k]]) && !wallTable[walls[k]].orphan
      modifies this`wallTable, this`edgeTable, this`rooms
      ensures Valid() && SameButSides(old(wallTable), wallTable)
      ensures RoomCorners(rooms) == roomCorners
      ensures SidesSoFar(cornerTable, old(wallTable), wallTable, walls, rooms)
    {
      rooms := [];
      for i := 0 to |roomCorners|
        invariant Valid() && SameButSides(old(wallTable), wallTable)
        invariant RoomCorners(rooms) == roomCorners[..i]
        invariant SidesSoFar(cornerTable, old(wallTable), wallTable, walls, rooms)
      {
        AddRoom(roomCorners[i], old(wallTable));
        assert RoomCorners(rooms) == roomCorners[..i + 1];
      }
      assert roomCorners[..|roomCorners|] == roomCorners;
    }

    /** One step of the loop of `update`: a `Room` built on the corners `cs` and pushed. */
    method AddRoom(cs: seq<CornerRef>, ghost wt0: seq<Wall>)
      requires Valid() && AllBelow(cs, |cornerTable|)
      requires SameButSides(wt0, wallTable) && SidesSoFar(cornerTable, wt0, wallTable, walls, rooms)
      modifies this`wallTable, this`edgeTable, this`rooms
      ensures Valid() && SameButSides(wt0, wallTable) && SidesSoFar(cornerTable, wt0, wallTable, walls, rooms)
      ensures |rooms| == old(|rooms|) + 1 && rooms[..old(|rooms|)] == old(rooms) && rooms[old(|rooms|)].corners == cs
    {
      ghost var wt1 := wallTable;
      ghost var et1 := edgeTable;
      SameButSidesEnds(wt0, wallTable);
      var room := NewRoom(cs);
      SidesSoFarStep(cornerTable, wt0, wt1, wallTable, et1, edgeTable, walls, rooms, room);
      RoomKeepsPlan(cornerTable, wallTable, edgeTable, corners, walls, rooms, room);
      rooms := rooms + [room];
    }

    // -------------------------------------------------------------------------------------
    // Plan edits

    /** `newWall`: a wall from `s` to `e` created and listed, then `update`. */
    method NewWall(s: CornerRef, e: CornerRef) returns (w: WallRef)
      requires Valid() && s < |cornerTable| && e < |cornerTable|
      modifies this`cornerTable, this`wallTable, this`edgeTable, this`walls, this`rooms
      ensures Valid() && Settled(cornerTable, wallTable, walls, rooms)
      ensures w == old(|wallTable|) && walls == old(walls) + [w]
      ensures cornerTable == Registered(old(cornerTable), s, e, w)
      ensures SameButSides(old(wallTable) + [Wall(GenerateId(old(cornerTable)[s].id, old(cornerTable)[e].id),
        s, e, DefaultWallThickness, DefaultWallHeight, None, None, false, false)], wallTable)
    {
      w := CreateWall(s, e);
      walls := walls + [w];
      Update();
    }

    /** `removeCorner`: the corner taken off the list (its walls are not touched). */
    method RemoveCorner(c: CornerRef)
      requires Valid()
      modifies this`corners
      ensures Valid()
      ensures corners == Without(old(corners), c)
    {
      corners := RemoveValue(corners, c);
      WithoutBelow(old(corners), c, |cornerTable|);
    }

    /** `removeWall`: the wall taken off the list, then `update`. `removeDuplicateWalls` can
        pass `undefined` (its loop index, stale once the list shrank), which removes nothing. */
    method RemoveWall(w: Option<WallRef>)
      requires Valid()
      modifies this`wallTable, this`edgeTable, this`walls, this`rooms
      ensures Valid() && Settled(cornerTable, wallTable, walls, rooms)
      ensures walls == if w.Some? then Without(old(walls), w.value) else old(walls)
      ensures SameButSides(old(wallTable), wallTable)
    {
      if w.Some? {
        walls := RemoveValue(walls, w.value);
        WithoutBelow(old(walls), w.value, |wallTable|);
      }
      Update();
    }

    /** One of `removeDuplicateWalls`' two loops, over `c`'s start walls (or end walls)
        from the last to the first: a wall that is zero-length, or whose end corner's id
        was met before, is removed with `Wall.remove` and `removeWall` is then handed what
        the loop index names in the shortened list; any other wall has its key recorded. */
    method RemoveDuplicatesFrom(c: CornerRef, fromStarts: bool)
      requires Valid() && c < |cornerTable|
      modifies this`cornerTable, this`wallTable, this`edgeTable, this`walls, this`rooms
      ensures Valid()
      ensures var st := ScanFrom(old(cornerTable), old(wallTable), c, fromStarts, Listed(old(cornerTable)[c], fromStarts));
        && Deduping(old(cornerTable), old(wallTable), old(walls), cornerTable, wallTable, walls, c, fromStarts, 0, st)
        && (st.removed == [] ==> cornerTable == old(cornerTable) && wallTable == old(wallTable) &&
                                 edgeTable == old(edgeTable) && rooms == old(rooms))
        && (st.removed != [] ==> Settled(cornerTable, wallTable, walls, rooms))
    {
      ghost var ct0, wt0, et0, ws0, rooms0 := cornerTable, wallTable, edgeTable, walls, rooms;
      DedupStart(ct0, wt0, ws0, c, fromStarts);
      var seen: set<string> := {};
      ghost var st := Scan([], {}, [], []);
      var k: nat := |Listed(cornerTable[c], fromStarts)|;
      while 0 < k
        invariant Valid() && seen == st.seen
        invariant Deduping(ct0, wt0, ws0, cornerTable, wallTable, walls, c, fromStarts, k, st)
        invariant st.removed == [] ==> cornerTable == ct0 && wallTable == wt0 && edgeTable == et0 && rooms == rooms0
        invariant st.removed != [] ==> Settled(cornerTable, wallTable, walls, rooms)
        decreases k
      {
        seen := VisitForDuplicate(c, fromStarts, k, seen, ct0, wt0, ws0, st);
        st := ScanStep(ct0, wt0, c, fromStarts, st, Listed(ct0[c], fromStarts)[k - 1]);
        k := k - 1;
      }
    }

    /** The body of either loop of `removeDuplicateWalls`, on the wall at index `k - 1`. */
    method VisitForDuplicate(c: CornerRef, fromStarts: bool, k: nat, seen: set<string>,
                             ghost ct0: seq<Corner>, ghost wt0: seq<Wall>, ghost ws0: seq<WallRef>, ghost st: Scan)
      returns (seen2: set<string>)
      requires Valid() && 0 < k && seen == st.seen
      requires Deduping(ct0, wt0, ws0, cornerTable, wallTable, walls, c, fromStarts, k, st)
      modifies this`cornerTable, this`wallTable, this`edgeTable, this`walls, this`rooms
      ensures Valid()
      ensures var st2 := ScanStep(ct0, wt0, c, fromStarts, st, Listed(ct0[c], fromStarts)[k - 1]);
        && seen2 == st2.seen
        && Deduping(ct0, wt0, ws0, cornerTable, wallTable, walls, c, fromStarts, k - 1, st2)
        && (st2.removed == st.removed ==> cornerTable == old(cornerTable) && wallTable == old(wallTable) &&
                                          edgeTable == old(edgeTable) && walls == old(walls) && rooms == old(rooms))
        && (st2.removed != st.removed ==> Settled(cornerTable, wallTable, walls, rooms))
    {
      DedupNext(ct0, wt0, ws0, cornerTable, wallTable, walls, c, fromStarts, k, st);
      var w := Listed(cornerTable[c], fromStarts)[k - 1];
      var key := EndKey(cornerTable, wallTable, w);
      seen2 := seen;
      if ZeroLength(wallTable, c, w, fromStarts) || (key != "" && key in seen) {
        RemoveDuplicate(c, fromStarts, k, w, ct0, wt0, ws0, st);
      } else {
        DedupKeep(ct0, wt0, ws0, cornerTable, wallTable, walls, c, fromStarts, k, st);
        if key != "" {
          seen2 := seen + {key};
        }
      }
    }

    /** The removing branch of either loop: `Wall.remove` on the wall at index `k - 1`, then
        `removeWall` on what that index names once the list has shrunk. */
    method RemoveDuplicate(c: CornerRef, fromStarts: bool, k: nat, w: WallRef,
                           ghost ct0: seq<Corner>, ghost wt0: seq<Wall>, ghost ws0: seq<WallRef>, ghost st: Scan)
      requires Valid() && 0 < k
      requires Deduping(ct0, wt0, ws0, cornerTable, wallTable, walls, c, fromStarts, k, st)
      requires w == Listed(ct0[c], fromStarts)[k - 1] && IsDuplicate(ct0, wt0, c, fromStarts, st.seen, w)
      modifies this`cornerTable, this`wallTable, this`edgeTable, this`walls, this`rooms
      ensures Valid() && Settled(cornerTable, wallTable, walls, rooms)
      ensures Deduping(ct0, wt0, ws0, cornerTable, wallTable, walls, c, fromStarts, k - 1, ScanStep(ct0, wt0, c, fromStarts, st, w))
    {
      ghost var ct1, wt1, ws1 := cornerTable, wallTable, walls;
      WallRemove(w);
      var stale := if k - 1 < |Listed(cornerTable[c], fromStarts)| then Some(Listed(cornerTable[c], fromStarts)[k - 1]) else None;
      RemoveWall(stale);
      DedupRemove(ct0, wt0, ws0, ct1, wt1, ws1, cornerTable, wallTable, walls, c, fromStarts, k, st, w, stale);
    }

    /** `removeDuplicateWalls(c)`: the loop over `c`'s start walls, then the loop over its
        end walls. What the two loops find is `StartsScan` and `EndsScan` of the starting
        tables; `DuplicatesGone` says what that leaves at the corner. */
    method RemoveDuplicateWalls(c: CornerRef)
      requires Valid() && c < |cornerTable|
      modifies this`cornerTable, this`wallTable, this`edgeTable, this`walls, this`rooms
      ensures Valid()
      ensures DuplicatesRemoved(old(cornerTable), old(wallTable), old(walls), cornerTable, wallTable, walls, c)
      ensures var removed := StartsScan(old(cornerTable), old(wallTable), c).removed
                             + EndsScan(old(cornerTable), old(wallTable), c).removed;
        && (removed == [] ==> cornerTable == old(cornerTable) && wallTable == old(wallTable) &&
                              edgeTable == old(edgeTable) && walls == old(walls) && rooms == old(rooms))
        && (removed != [] ==> Settled(cornerTable, wallTable, walls, rooms))
    {
      ghost var ct0, wt0, ws0 := cornerTable, wallTable, walls;
      RemoveDuplicatesFrom(c, true);
      ghost var ct1, wt1, ws1 := cornerTable, wallTable, walls;
      RemoveDuplicatesFrom(c, false);
      DedupBoth(ct0, wt0, ws0, ct1, wt1, ws1, cornerTable, wallTable, walls, c);
      SecondScanIsEndsScan(ct0, wt0, ws0, ct1, wt1, ws1, c);
    }

    /** `Corner.move`: the corner placed at `(x, y)`, then `mergeWithIntersected` on it. */
    method Move(c: CornerRef, x: real, y: real)
      requires Valid() && c < |cornerTable|
      modifies this`cornerTable, this`wallTable, this`edgeTable, this`corners, this`walls, this`rooms
      ensures Valid()
      ensures Moved(old(cornerTable), old(wallTable), old(corners), old(walls), cornerTable, wallTable, corners, walls, c, x, y)
    {
      cornerTable := cornerTable[c := cornerTable[c].(x := x, y := y)];
      SameListsKeepIncidence(old(cornerTable), cornerTable, wallTable);
      CornersKeepPlan(old(cornerTable), cornerTable, wallTable, edgeTable, corners, walls, rooms);
      var merged := MergeWithIntersected(c);
    }

    /** `Corner.relativeMove`: `move` by `(dx, dy)` from where the corner is. */
    method RelativeMove(c: CornerRef, dx: real, dy: real)
      requires Valid() && c < |cornerTable|
      modifies this`cornerTable, this`wallTable, this`edgeTable, this`corners, this`walls, this`rooms
      ensures Valid()
      ensures Moved(old(cornerTable), old(wallTable), old(corners), old(walls), cornerTable, wallTable, corners, walls,
                    c, old(cornerTable)[c].x + dx, old(cornerTable)[c].y + dy)
    {
      Move(c, cornerTable[c].x + dx, cornerTable[c].y + dy);
    }

    /** `Wall.relativeMove`: the start corner moved by `(dx, dy)`, then whatever corner the
        wall ends at by then. A merge of the start corner can re-point the wall's end to
        the start corner, which then moves twice; no corner but the wall's two moves. */
    method WallRelativeMove(w: WallRef, dx: real, dy: real)
      requires Valid() && w < |wallTable|
      modifies this`cornerTable, this`wallTable, this`edgeTable, this`corners, this`walls, this`rooms
      ensures Valid()
      ensures |cornerTable| == old(|cornerTable|) && |wallTable| >= old(|wallTable|)
      ensures forall m :: 0 <= m < |cornerTable| && m != old(wallTable)[w].start && m != old(wallTable)[w].end ==>
        cornerTable[m].x == old(cornerTable)[m].x && cornerTable[m].y == old(cornerTable)[m].y
    {
      RelativeMove(wallTable[w].start, dx, dy);
      RelativeMove(wallTable[w].end, dx, dy);
    }

    /** `mergeWithIntersected(nc)`: the first listed corner other than `nc` within the
        corner tolerance is combined into `nc`; failing that, the first listed wall within
        the tolerance that `nc` does not list is split at `nc`; failing both, nothing
        changes. */
    method MergeWithIntersected(nc: CornerRef) returns (merged: bool)
      requires Valid() && nc < |cornerTable|
      modifies this`cornerTable, this`wallTable, this`edgeTable, this`corners, this`walls, this`rooms
      ensures Valid()
      ensures |cornerTable| == old(|cornerTable|)
      ensures forall m :: 0 <= m < |cornerTable| && m != nc ==>
        cornerTable[m].x == old(cornerTable)[m].x && cornerTable[m].y == old(cornerTable)[m].y
      ensures RepointedTo(old(wallTable), wallTable, nc)
      ensures var hitCorner := CloseCornerFrom(old(cornerTable), old(corners), nc, 0);
              var hitWall := CloseWallFrom(old(cornerTable), old(wallTable), old(walls), nc, 0);
        && merged == (hitCorner.Some? || hitWall.Some?)
        && (hitCorner.Some? ==>
              && corners == Without(old(corners), old(corners)[hitCorner.value])
              && cornerTable[nc].x == old(cornerTable)[old(corners)[hitCorner.value]].x
              && cornerTable[nc].y == old(cornerTable)[old(corners)[hitCorner.value]].y)
        && (hitCorner.None? && hitWall.Some? ==>
              && corners == old(corners)
              && WallSplit(old(cornerTable), old(wallTable), old(walls), cornerTable, wallTable, walls,
                           nc, old(walls)[hitWall.value]))
        && (merged ==> Settled(cornerTable, wallTable, walls, rooms))
        && (!merged ==> cornerTable == old(cornerTable) && wallTable == old(wallTable) && edgeTable == old(edgeTable)
                        && corners == old(corners) && walls == old(walls) && rooms == old(rooms))
    {
      merged := MergeIntoCorner(nc);
      if !merged {
        merged := MergeIntoWall(nc);
      }
    }

    /** The corner scan of `mergeWithIntersected`. */
    method MergeIntoCorner(nc: CornerRef) returns (merged: bool)
      requires Valid() && nc < |cornerTable|
      modifies this`cornerTable, this`wallTable, this`edgeTable, this`corners, this`walls, this`rooms
      ensures Valid()
      ensures |cornerTable| == old(|cornerTable|)
      ensures forall m :: 0 <= m < |cornerTable| && m != nc ==>
        cornerTable[m].x == old(cornerTable)[m].x && cornerTable[m].y == old(cornerTable)[m].y
      ensures RepointedTo(old(wallTable), wallTable, nc)
      ensures var hit := CloseCornerFrom(old(cornerTable), old(corners), nc, 0);
        && merged == hit.Some?
        && (merged ==> corners == Without(old(corners), old(corners)[hit.value]) && Settled(cornerTable, wallTable, walls, rooms)
                       && cornerTable[nc].x == old(cornerTable)[old(corners)[hit.value]].x
                       && cornerTable[nc].y == old(cornerTable)[old(corners)[hit.value]].y)
        && (!merged ==> cornerTable == old(cornerTable) && wallTable == old(wallTable) && edgeTable == old(edgeTable)
                        && corners == old(corners) && walls == old(walls) && rooms == old(rooms))
    {
      for j := 0 to |corners|
        invariant cornerTable == old(cornerTable) && wallTable == old(wallTable) && edgeTable == old(edgeTable)
        invariant corners == old(corners) && walls == old(walls) && rooms == old(rooms)
        invariant CloseCornerFrom(cornerTable, corners, nc, j) == CloseCornerFrom(cornerTable, corners, nc, 0)
      {
        var corner := corners[j];
        if Below(DistanceSq(cornerTable[corner].x, cornerTable[corner].y, cornerTable[nc].x, cornerTable[nc].y),
                 CornerTolerance) && corner != nc {
          CombineCorners(nc, corner);
          return true;
        }
      }
      return false;
    }

    /** The wall scan of `mergeWithIntersected`. */
    method MergeIntoWall(nc: CornerRef) returns (merged: bool)
      requires Valid() && nc < |cornerTable|
      modifies this`cornerTable, this`wallTable, this`edgeTable, this`walls, this`rooms
      ensures Valid()
      ensures |cornerTable| == old(|cornerTable|)
      ensures forall m :: 0 <= m < |cornerTable| && m != nc ==>
        cornerTable[m].x == old(cornerTable)[m].x && cornerTable[m].y == old(cornerTable)[m].y
      ensures RepointedTo(old(wallTable), wallTable, nc)
      ensures var hit := CloseWallFrom(old(cornerTable), old(wallTable), old(walls), nc, 0);
        && merged == hit.Some?
        && (merged ==> WallSplit(old(cornerTable), old(wallTable), old(walls), cornerTable, wallTable, walls,
                                 nc, old(walls)[hit.value])
                       && Settled(cornerTable, wallTable, walls, rooms))
        && (!merged ==> cornerTable == old(cornerTable) && wallTable == old(wallTable) && edgeTable == old(edgeTable)
                        && walls == old(walls) && rooms == old(rooms))
    {
      for i := 0 to |walls|
        invariant cornerTable == old(cornerTable) && wallTable == old(wallTable) && edgeTable == old(edgeTable)
        invariant walls == old(walls) && rooms == old(rooms)
        invariant CloseWallFrom(cornerTable, wallTable, walls, nc, i) == CloseWallFrom(cornerTable, wallTable, walls, nc, 0)
      {
        var wall := walls[i];
        var s := cornerTable[wallTable[wall].start];
        var e := cornerTable[wallTable[wall].end];
        var connected := IsWallConnected(cornerTable[nc], wall);
        if Below(PointDistanceSqFromLine(cornerTable[nc].x, cornerTable[nc].y, s.x, s.y, e.x, e.y), CornerTolerance)
           && !connected {
          SplitWall(nc, wall);
          return true;
        }
      }
      return false;
    }

    /** The wall case of `mergeWithIntersected`: `nc` moves to the point of wall `w`
        closest to it, a new wall from `nc` to `w`'s end is created, `w` is made to end at
        `nc`, and the plan is updated. */
    method SplitWall(nc: CornerRef, w: WallRef)
      requires Valid() && nc < |cornerTable| && w < |wallTable|
      modifies this`cornerTable, this`wallTable, this`edgeTable, this`walls, this`rooms
      ensures Valid() && Settled(cornerTable, wallTable, walls, rooms)
      ensures WallSplit(old(cornerTable), old(wallTable), old(walls), cornerTable, wallTable, walls, nc, w)
      ensures forall m :: 0 <= m < |cornerTable| && m != nc ==>
        cornerTable[m].x == old(cornerTable)[m].x && cornerTable[m].y == old(cornerTable)[m].y
      ensures RepointedTo(old(wallTable), wallTable, nc)
    {
      var s := cornerTable[wallTable[w].start];
      var e := cornerTable[wallTable[w].end];
      var p := ClosestPointOnLine(cornerTable[nc].x, cornerTable[nc].y, s.x, s.y, e.x, e.y);
      ghost var ct0 := cornerTable;
      cornerTable := cornerTable[nc := cornerTable[nc].(x := p.x, y := p.y)];
      SameListsKeepIncidence(ct0, cornerTable, wallTable);
      CornersKeepPlan(ct0, cornerTable, wallTable, edgeTable, corners, walls, rooms);
      ghost var wt0 := wallTable;
      var added := NewWall(nc, wallTable[w].end);
      ghost var ct1, wt1 := cornerTable, wallTable;
      SetEnd(w, nc);
      ghost var wt2 := wallTable;
      Update();
      SplitMoves(ct0, wt0, nc, w, p.x, p.y, Wall(GenerateId(ct1[nc].id, ct1[wt0[w].end].id), nc, wt0[w].end,
                 DefaultWallThickness, DefaultWallHeight, None, None, false, false), ct1, wt1, cornerTable, wt2, wallTable);
    }

    /** `combineCorners(t, c)`: `t` takes `c`'s position, the walls at `c` are handed to
        `t` by the two backward loops, `c` is removed from the plan, and the plan is
        updated. Once the loops have run, `c` lists no wall, so `removeAll` only marks it
        deleted and `removeDuplicateWalls(c)` finds nothing to remove. */
    method CombineCorners(t: CornerRef, c: CornerRef)
      requires Valid() && t < |cornerTable| && c < |cornerTable|
      modifies this`cornerTable, this`wallTable, this`edgeTable, this`corners, this`walls, this`rooms
      ensures Valid() && Settled(cornerTable, wallTable, walls, rooms)
      ensures corners == Without(old(corners), c)
      ensures |cornerTable| == old(|cornerTable|)
      ensures cornerTable[t].x == old(cornerTable)[c].x && cornerTable[t].y == old(cornerTable)[c].y
      ensures forall m :: 0 <= m < |cornerTable| && m != t ==>
        cornerTable[m].x == old(cornerTable)[m].x && cornerTable[m].y == old(cornerTable)[m].y
      ensures RepointedTo(old(wallTable), wallTable, t)
      ensures t != c ==>
        && walls == old(walls) && cornerTable[c].deleted
        && Combined(old(cornerTable)[t := old(cornerTable)[t].(x := old(cornerTable)[c].x, y := old(cornerTable)[c].y)],
                    old(wallTable), cornerTable, wallTable, t, c)
    {
      ghost var ctA := cornerTable[t := cornerTable[t].(x := cornerTable[c].x, y := cornerTable[c].y)];
      ghost var wtA := wallTable;
      AbsorbCorner(t, c);
      ghost var ctC, wtC := cornerTable, wallTable;
      RetireCorner(c);
      ghost var wtD := wallTable;
      Update();
      SameButSidesEnds(wtD, wallTable);
      CombineMoves(old(cornerTable), wtA, ctC, wtC, cornerTable, wtD, wallTable, t, c);
      if t != c {
        CombinedSettles(ctA, wtA, ctC, wtC, cornerTable, wallTable, t, c);
      }
    }

    /** The first half of `combineCorners`: the position, then the two loops. */
    method AbsorbCorner(t: CornerRef, c: CornerRef)
      requires Valid() && t < |cornerTable| && c < |cornerTable|
      modifies this`cornerTable, this`wallTable
      ensures Valid()
      ensures var ctA := old(cornerTable)[t := old(cornerTable)[t].(x := old(cornerTable)[c].x, y := old(cornerTable)[c].y)];
        && AbsorbOthers(ctA, cornerTable, t, c)
        && (t != c ==> Combined(ctA, old(wallTable), cornerTable, wallTable, t, c))
      ensures |wallTable| == old(|wallTable|) && RepointedTo(old(wallTable), wallTable, t)
    {
      ghost var ct0 := cornerTable;
      cornerTable := cornerTable[t := cornerTable[t].(x := cornerTable[c].x, y := cornerTable[c].y)];
      SameListsKeepIncidence(ct0, cornerTable, wallTable);
      CornersKeepPlan(ct0, cornerTable, wallTable, edgeTable, corners, walls, rooms);
      ghost var ctA, wtA := cornerTable, wallTable;
      MoveWallsTo(t, c, true);
      ghost var ctB, wtB := cornerTable, wallTable;
      MoveWallsTo(t, c, false);
      AbsorbedTwice(ctA, wtA, ctB, wtB, cornerTable, wallTable, t, c);
      if t != c {
        AbsorbedBoth(ctA, wtA, ctB, wtB, cornerTable, wallTable, t, c);
      }
    }

    /** The second half of `combineCorners` before `update`: `removeAll`, `removeCorner`
        and `removeDuplicateWalls` on `c`. Positions never change; on a corner that lists
        no wall, only its deleted flag and the corner list do. */
    method RetireCorner(c: CornerRef)
      requires Valid() && c < |cornerTable|
      modifies this`cornerTable, this`wallTable, this`edgeTable, this`corners, this`walls, this`rooms
      ensures Valid() && corners == Without(old(corners), c)
      ensures |cornerTable| == old(|cornerTable|) && SameEnds(old(wallTable), wallTable)
      ensures forall m :: 0 <= m < |cornerTable| ==>
        cornerTable[m].x == old(cornerTable)[m].x && cornerTable[m].y == old(cornerTable)[m].y
      ensures old(cornerTable)[c].wallStarts == [] && old(cornerTable)[c].wallEnds == [] ==>
        && cornerTable == old(cornerTable)[c := old(cornerTable)[c].(deleted := true)]
        && wallTable == old(wallTable) && walls == old(walls)
    {
      ghost var ct0, wt0 := cornerTable, wallTable;
      RemoveAll(c);
      RemoveCorner(c);
      ghost var ct1, wt1, ws1 := cornerTable, wallTable, walls;
      RemoveDuplicateWalls(c);
      RetiredCorner(ct0, wt0, RemovedByRemoveAll(ct0[c]), ct1, wt1, ws1, cornerTable, wallTable, walls, c);
    }

    /** `cleanUp`: `update`, then the deleted corners and walls dropped from the lists, in
        order. No room is ever deleted, so the rooms stay as found, and the plan stays
        settled. */
    method CleanUp()
      requires Valid()
      modifies this`wallTable, this`edgeTable, this`corners, this`walls, this`rooms
      ensures Valid() && Settled(cornerTable, wallTable, walls, rooms)
      ensures SameButSides(old(wallTable), wallTable)
      ensures corners == LiveCorners(cornerTable, old(corners))
      ensures walls == LiveWalls(wallTable, old(walls))
    {
      Update();
      LiveListsKeepPlan(cornerTable, wallTable, edgeTable, corners, walls, rooms);
      corners := LiveCorners(cornerTable, corners);
      walls := LiveWalls(wallTable, walls);
      AllKept(rooms, (r: Room) => !r.deleted);
      rooms := Keep(rooms, (r: Room) => !r.deleted);
    }

    // -------------------------------------------------------------------------------------
    // Hit tests

    /** `overlappedCorner`: the first listed corner closer to `(x, y)` than the tolerance
        (`tolerance || 10`), if any. */
    method OverlappedCorner(x: real, y: real, tolerance: Option<real>) returns (r: Option<CornerRef>)
      requires Valid()
      ensures r.Some? ==> exists i :: (0 <= i < |corners| && corners[i] == r.value
        && Below(DistanceSq(x, y, cornerTable[r.value].x, cornerTable[r.value].y), HitTolerance(tolerance))
        && forall k :: 0 <= k < i ==>
             !Below(DistanceSq(x, y, cornerTable[corners[k]].x, cornerTable[corners[k]].y), HitTolerance(tolerance)))
      ensures r.None? ==> forall k :: 0 <= k < |corners| ==>
        !Below(DistanceSq(x, y, cornerTable[corners[k]].x, cornerTable[corners[k]].y), HitTolerance(tolerance))
    {
      var t := HitTolerance(tolerance);
      for i := 0 to |corners|
        invariant forall k :: 0 <= k < i ==> !Below(DistanceSq(x, y, cornerTable[corners[k]].x, cornerTable[corners[k]].y), t)
      {
        if Below(DistanceSq(x, y, cornerTable[corners[i]].x, cornerTable[corners[i]].y), t) {
          return Some(corners[i]);
        }
      }
      return None;
    }

    /** The squared distance from `(x, y)` to the segment of wall `w`. */
    function WallDistanceSq(w: WallRef, x: real, y: real): real
      requires Valid() && w < |wallTable|
      reads this
    {
      var s := cornerTable[wallTable[w].start];
      var e := cornerTable[wallTable[w].end];
      PointDistanceSqFromLine(x, y, s.x, s.y, e.x, e.y)
    }

    /** `overlappedWall`: the first listed wall closer to `(x, y)` than the tolerance, if
        any. */
    method OverlappedWall(x: real, y: real, tolerance: Option<real>) returns (r: Option<WallRef>)
      requires Valid()
      ensures r.Some? ==> exists i :: (0 <= i < |walls| && walls[i] == r.value
        && Below(WallDistanceSq(r.value, x, y), HitTolerance(tolerance))
        && forall k :: 0 <= k < i ==> !Below(WallDistanceSq(walls[k], x, y), HitTolerance(tolerance)))
      ensures r.None? ==> forall k :: 0 <= k < |walls| ==> !Below(WallDistanceSq(walls[k], x, y), HitTolerance(tolerance))
    {
      var t := HitTolerance(tolerance);
      for i := 0 to |walls|
        invariant forall k :: 0 <= k < i ==> !Below(WallDistanceSq(walls[k], x, y), t)
      {
        var s := cornerTable[wallTable[walls[i]].start];
        var e := cornerTable[wallTable[walls[i]].end];
        if Below(PointDistanceSqFromLine(x, y, s.x, s.y, e.x, e.y), t) {
          return Some(walls[i]);
        }
      }
      return None;
    }
  }
}
