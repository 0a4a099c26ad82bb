/** The plan graph of the 2D editor (src/components/2d): corners, walls, half-edges and
    rooms. The objects refer to each other in cycles (a corner lists its walls, a wall
    names its corners, a half-edge names its wall and its neighbours), so they are kept in
    tables owned by the floor plan and refer to each other by index; an index is the
    object's identity, and an object, once created, keeps its index forever. This module
    holds the records and everything about them that reads the tables without changing
    them. */
module Graph {
  import opened Wrappers
  import opened Utils
  import opened Utils2D

  /** Index of a corner in the corner table. */
  type CornerRef = nat
  /** Index of a wall in the wall table. */
  type WallRef = nat
  /** Index of a half-edge in the half-edge table. */
  type EdgeRef = nat

  const DefaultWallHeight: real := 250.0
  const DefaultWallThickness: real := 10.0

  /** `Corner`: a position with the walls that start and end there. */
  datatype Corner = Corner(
    id: string, x: real, y: real,
    wallStarts: seq<WallRef>, wallEnds: seq<WallRef>,
    deleted: bool)

  /** `Wall`: a segment between two corners, with the half-edges last built on each side. */
  datatype Wall = Wall(
    id: string, start: CornerRef, end: CornerRef,
    thickness: real, height: real,
    frontEdge: Option<EdgeRef>, backEdge: Option<EdgeRef>,
    orphan: bool, deleted: bool)

  /** `HalfEdge`: one side of a wall, linked to its neighbours around a room. */
  datatype HalfEdge = HalfEdge(
    wall: WallRef, front: bool,
    prev: Option<EdgeRef>, next: Option<EdgeRef>,
    offset: real, height: real)

  /** `Room`: a cycle of corners, the ring of half-edges built for it and the inner outline
      read off that ring. */
  datatype Room = Room(
    corners: seq<CornerRef>, interiorCorners: seq<Point>,
    edgePointer: Option<EdgeRef>, deleted: bool)

  // ---------------------------------------------------------------------------------------
  // Well-formed tables: every reference points into its table.

  /** Every entry is an index below `n`. */
  predicate AllBelow(refs: seq<nat>, n: nat) {
    forall i :: 0 <= i < |refs| ==> refs[i] < n
  }

  predicate CornerOk(c: Corner, wallCount: nat) {
    AllBelow(c.wallStarts, wallCount) && AllBelow(c.wallEnds, wallCount)
  }

  /** Every wall listed by any corner is in the wall table. */
  predicate CornerListsOk(ct: seq<Corner>, wallCount: nat) {
    (forall c, i :: 0 <= c < |ct| && 0 <= i < |ct[c].wallStarts| ==> ct[c].wallStarts[i] < wallCount)
    && (forall c, i :: 0 <= c < |ct| && 0 <= i < |ct[c].wallEnds| ==> ct[c].wallEnds[i] < wallCount)
  }

  /** Every wall's half-edges are in the half-edge table. */
  predicate WallEdgesOk(wt: seq<Wall>, edgeCount: nat) {
    (forall w :: 0 <= w < |wt| && wt[w].frontEdge.Some? ==> wt[w].frontEdge.value < edgeCount)
    && (forall w :: 0 <= w < |wt| && wt[w].backEdge.Some? ==> wt[w].backEdge.value < edgeCount)
  }

  /** Every wall's corners are in the corner table. */
  predicate WallCornersOk(wt: seq<Wall>, cornerCount: nat) {
    forall w :: 0 <= w < |wt| ==> wt[w].start < cornerCount && wt[w].end < cornerCount
  }

  /** Every wall's corners and half-edges are in their tables. */
  predicate WallRefsOk(wt: seq<Wall>, cornerCount: nat, edgeCount: nat) {
    WallCornersOk(wt, cornerCount) && WallEdgesOk(wt, edgeCount)
  }

  /** Every half-edge's wall and neighbours are in their tables. */
  predicate EdgeRefsOk(et: seq<HalfEdge>, wallCount: nat) {
    (forall e :: 0 <= e < |et| ==> et[e].wall < wallCount)
    && (forall e :: 0 <= e < |et| && et[e].prev.Some? ==> et[e].prev.value < |et|)
    && (forall e :: 0 <= e < |et| && et[e].next.Some? ==> et[e].next.value < |et|)
  }

  predicate TablesOk(ct: seq<Corner>, wt: seq<Wall>, et: seq<HalfEdge>) {
    CornerListsOk(ct, |wt|) && WallRefsOk(wt, |ct|, |et|) && EdgeRefsOk(et, |wt|)
  }

  /** Every wall a corner lists names that corner at the matching end. (The converse is not
      kept by the source: re-pointing one end of a wall whose two ends are the same corner
      detaches it from both of that corner's lists.) */
  predicate Sound(ct: seq<Corner>, wt: seq<Wall>)
    requires CornerListsOk(ct, |wt|)
  {
    forall c :: 0 <= c < |ct| ==>
      (forall i :: 0 <= i < |ct[c].wallStarts| ==> wt[ct[c].wallStarts[i]].start == c)
      && (forall i :: 0 <= i < |ct[c].wallEnds| ==> wt[ct[c].wallEnds[i]].end == c)
  }

  /** No corner lists a wall twice in the same list. */
  predicate ListsDistinct(ct: seq<Corner>) {
    forall c :: 0 <= c < |ct| ==> Distinct(ct[c].wallStarts) && Distinct(ct[c].wallEnds)
  }

  /** A wall's front and back pointers name half-edges built on that wall and side. */
  predicate EdgesConsistent(wt: seq<Wall>, et: seq<HalfEdge>)
    requires WallEdgesOk(wt, |et|)
  {
    forall w :: 0 <= w < |wt| ==>
      (wt[w].frontEdge.Some? ==> et[wt[w].frontEdge.value].wall == w && et[wt[w].frontEdge.value].front)
      && (wt[w].backEdge.Some? ==> et[wt[w].backEdge.value].wall == w && !et[wt[w].backEdge.value].front)
  }

  // ---------------------------------------------------------------------------------------
  // Incidence queries

  /** The end corners of the listed walls, in order. */
  function Ends(wt: seq<Wall>, ws: seq<WallRef>): (r: seq<CornerRef>)
    requires AllBelow(ws, |wt|)
    ensures |r| == |ws|
    ensures forall i :: 0 <= i < |ws| ==> r[i] == wt[ws[i]].end
  {
    if ws == [] then [] else [wt[ws[0]].end] + Ends(wt, ws[1..])
  }

  /** The start corners of the listed walls, in order. */
  function Starts(wt: seq<Wall>, ws: seq<WallRef>): (r: seq<CornerRef>)
    requires AllBelow(ws, |wt|)
    ensures |r| == |ws|
    ensures forall i :: 0 <= i < |ws| ==> r[i] == wt[ws[i]].start
  {
    if ws == [] then [] else [wt[ws[0]].start] + Starts(wt, ws[1..])
  }

  /** What `Corner.adjacentCorners` returns: the far end of every start wall, then the
      far end of every end wall. */
  function AdjacentCorners(wt: seq<Wall>, c: Corner): seq<CornerRef>
    requires CornerOk(c, |wt|)
  {
    Ends(wt, c.wallStarts) + Starts(wt, c.wallEnds)
  }

  /** One entry per incident wall, and a corner is adjacent exactly when some start wall
      ends there or some end wall starts there. */
  lemma AdjacentCornersMembers(wt: seq<Wall>, c: Corner, d: CornerRef)
    requires CornerOk(c, |wt|)
    ensures |AdjacentCorners(wt, c)| == |c.wallStarts| + |c.wallEnds|
    ensures d in AdjacentCorners(wt, c)
        <==> (exists w <- c.wallStarts :: wt[w].end == d) || (exists w <- c.wallEnds :: wt[w].start == d)
  {
    var a := AdjacentCorners(wt, c);
    var n := |c.wallStarts|;
    if d in a {
      var i :| 0 <= i < |a| && a[i] == d;
      if i < n {
        assert c.wallStarts[i] in c.wallStarts;
      } else {
        assert c.wallEnds[i - n] in c.wallEnds;
      }
    }
    if exists w <- c.wallStarts :: wt[w].end == d {
      var w :| w in c.wallStarts && wt[w].end == d;
      var i :| 0 <= i < n && c.wallStarts[i] == w;
      assert a[i] == d;
    }
    if exists w <- c.wallEnds :: wt[w].start == d {
      var w :| w in c.wallEnds && wt[w].start == d;
      var i :| 0 <= i < |c.wallEnds| && c.wallEnds[i] == w;
      assert a[n + i] == d;
    }
  }

  /** `Corner.adjacentCorners`: two loops pushing the far ends. */
  method AdjacentCornersOf(wt: seq<Wall>, c: Corner) returns (r: seq<CornerRef>)
    requires CornerOk(c, |wt|)
    ensures r == AdjacentCorners(wt, c)
  {
    r := [];
    for i := 0 to |c.wallStarts|
      invariant r == Ends(wt, c.wallStarts[..i])
    {
      assert c.wallStarts[..i + 1] == c.wallStarts[..i] + [c.wallStarts[i]];
      r := r + [wt[c.wallStarts[i]].end];
    }
    assert c.wallStarts[..|c.wallStarts|] == c.wallStarts;
    for j := 0 to |c.wallEnds|
      invariant r == Ends(wt, c.wallStarts) + Starts(wt, c.wallEnds[..j])
    {
      assert c.wallEnds[..j + 1] == c.wallEnds[..j] + [c.wallEnds[j]];
      r := r + [wt[c.wallEnds[j]].start];
    }
    assert c.wallEnds[..|c.wallEnds|] == c.wallEnds;
  }

  /** `Corner.isWallConnected`: a scan of the start walls, then of the end walls. */
  method IsWallConnected(c: Corner, w: WallRef) returns (b: bool)
    ensures b <==> w in c.wallStarts || w in c.wallEnds
  {
    for i := 0 to |c.wallStarts|
      invariant w !in c.wallStarts[..i]
    {
      if c.wallStarts[i] == w {
        return true;
      }
    }
    assert c.wallStarts[..|c.wallStarts|] == c.wallStarts;
    for j := 0 to |c.wallEnds|
      invariant w !in c.wallEnds[..j]
    {
      if c.wallEnds[j] == w {
        return true;
      }
    }
    assert c.wallEnds[..|c.wallEnds|] == c.wallEnds;
    return false;
  }

  /** The first listed wall whose end is `d` (`Corner.wallTo`), if any. */
  function FirstEndingAt(wt: seq<Wall>, ws: seq<WallRef>, d: CornerRef): (r: Option<WallRef>)
    requires AllBelow(ws, |wt|)
    ensures r.Some? ==> r.value in ws && r.value < |wt| && wt[r.value].end == d
  {
    if ws == [] then None
    else if wt[ws[0]].end == d then Some(ws[0])
    else FirstEndingAt(wt, ws[1..], d)
  }

  /** The first listed wall whose start is `d` (`Corner.wallFrom`), if any. */
  function FirstStartingAt(wt: seq<Wall>, ws: seq<WallRef>, d: CornerRef): (r: Option<WallRef>)
    requires AllBelow(ws, |wt|)
    ensures r.Some? ==> r.value in ws && r.value < |wt| && wt[r.value].start == d
  {
    if ws == [] then None
    else if wt[ws[0]].start == d then Some(ws[0])
    else FirstStartingAt(wt, ws[1..], d)
  }

  /** `FirstEndingAt` is none exactly when no listed wall ends at `d`, and otherwise the
      wall at the first index that does. */
  lemma {:induction false} FirstEndingAtIsFirst(wt: seq<Wall>, ws: seq<WallRef>, d: CornerRef)
    requires AllBelow(ws, |wt|)
    ensures FirstEndingAt(wt, ws, d).None? <==> forall i :: 0 <= i < |ws| ==> wt[ws[i]].end != d
    ensures FirstEndingAt(wt, ws, d).Some? ==>
      exists i :: 0 <= i < |ws| && ws[i] == FirstEndingAt(wt, ws, d).value && wt[ws[i]].end == d
        && forall k :: 0 <= k < i ==> wt[ws[k]].end != d
  {
    if ws != [] && wt[ws[0]].end != d {
      FirstEndingAtIsFirst(wt, ws[1..], d);
      if FirstEndingAt(wt, ws, d).Some? {
        var i :| 0 <= i < |ws| - 1 && ws[1..][i] == FirstEndingAt(wt, ws, d).value
          && wt[ws[1..][i]].end == d && forall k :: 0 <= k < i ==> wt[ws[1..][k]].end != d;
        assert forall k :: 0 <= k < i + 1 ==> wt[ws[k]].end != d by {
          forall k | 0 <= k < i + 1 ensures wt[ws[k]].end != d {
            if k > 0 {
              assert ws[k] == ws[1..][k - 1];
            }
          }
        }
        assert ws[i + 1] == ws[1..][i];
      } else {
        forall i | 0 <= i < |ws| ensures wt[ws[i]].end != d {
          if i > 0 {
            assert ws[i] == ws[1..][i - 1];
          }
        }
      }
    }
  }

  /** The same for `FirstStartingAt`. */
  lemma {:induction false} FirstStartingAtIsFirst(wt: seq<Wall>, ws: seq<WallRef>, d: CornerRef)
    requires AllBelow(ws, |wt|)
    ensures FirstStartingAt(wt, ws, d).None? <==> forall i :: 0 <= i < |ws| ==> wt[ws[i]].start != d
    ensures FirstStartingAt(wt, ws, d).Some? ==>
      exists i :: 0 <= i < |ws| && ws[i] == FirstStartingAt(wt, ws, d).value && wt[ws[i]].start == d
        && forall k :: 0 <= k < i ==> wt[ws[k]].start != d
  {
    if ws != [] && wt[ws[0]].start != d {
      FirstStartingAtIsFirst(wt, ws[1..], d);
      if FirstStartingAt(wt, ws, d).Some? {
        var i :| 0 <= i < |ws| - 1 && ws[1..][i] == FirstStartingAt(wt, ws, d).value
          && wt[ws[1..][i]].start == d && forall k :: 0 <= k < i ==> wt[ws[1..][k]].start != d;
        assert forall k :: 0 <= k < i + 1 ==> wt[ws[k]].start != d by {
          forall k | 0 <= k < i + 1 ensures wt[ws[k]].start != d {
            if k > 0 {
              assert ws[k] == ws[1..][k - 1];
            }
          }
        }
        assert ws[i + 1] == ws[1..][i];
      } else {
        forall i | 0 <= i < |ws| ensures wt[ws[i]].start != d {
          if i > 0 {
            assert ws[i] == ws[1..][i - 1];
          }
        }
      }
    }
  }

  /** `Corner.wallTo`: the first start wall ending at `d`, or null. */
  method WallTo(wt: seq<Wall>, c: Corner, d: CornerRef) returns (r: Option<WallRef>)
    requires CornerOk(c, |wt|)
    ensures r == FirstEndingAt(wt, c.wallStarts, d)
  {
    var i := 0;
    while i < |c.wallStarts|
      invariant 0 <= i <= |c.wallStarts|
      invariant FirstEndingAt(wt, c.wallStarts[i..], d) == FirstEndingAt(wt, c.wallStarts, d)
    {
      assert c.wallStarts[i..][1..] == c.wallStarts[i + 1..];
      if wt[c.wallStarts[i]].end == d {
        return Some(c.wallStarts[i]);
      }
      i := i + 1;
    }
    return None;
  }

  /** `Corner.wallFrom`: the first end wall starting at `d`, or null. */
  method WallFrom(wt: seq<Wall>, c: Corner, d: CornerRef) returns (r: Option<WallRef>)
    requires CornerOk(c, |wt|)
    ensures r == FirstStartingAt(wt, c.wallEnds, d)
  {
    var i := 0;
    while i < |c.wallEnds|
      invariant 0 <= i <= |c.wallEnds|
      invariant FirstStartingAt(wt, c.wallEnds[i..], d) == FirstStartingAt(wt, c.wallEnds, d)
    {
      assert c.wallEnds[i..][1..] == c.wallEnds[i + 1..];
      if wt[c.wallEnds[i]].start == d {
        return Some(c.wallEnds[i]);
      }
      i := i + 1;
    }
    return None;
  }

  /** The corner after `Corner.detachWall(w)`: `w` spliced out of both lists, and the
      corner marked deleted once it has no walls left. */
  function Detach(c: Corner, w: WallRef): Corner {
    var starts := Without(c.wallStarts, w);
    var ends := Without(c.wallEnds, w);
    c.(wallStarts := starts, wallEnds := ends,
       deleted := if |starts| == 0 && |ends| == 0 then true else c.deleted)
  }

  /** After detaching, `w` is in neither list, every other wall is still listed where it
      was, the position and id are kept, and the corner is deleted exactly when it already
      was or has no walls left. */
  lemma DetachSpec(c: Corner, w: WallRef, v: WallRef)
    ensures var d := Detach(c, w);
      && w !in d.wallStarts && w !in d.wallEnds
      && (v in d.wallStarts <==> v in c.wallStarts && v != w)
      && (v in d.wallEnds <==> v in c.wallEnds && v != w)
      && d.id == c.id && d.x == c.x && d.y == c.y
      && (d.deleted <==> c.deleted || (d.wallStarts == [] && d.wallEnds == []))
  {
    WithoutMembers(c.wallStarts, w, v);
    WithoutMembers(c.wallEnds, w, v);
  }

  /** Detaching a wall the corner does not list changes nothing but, for a corner with no
      walls at all, the deleted flag. */
  lemma DetachAbsent(c: Corner, w: WallRef)
    requires w !in c.wallStarts && w !in c.wallEnds
    ensures Detach(c, w) == c.(deleted := c.deleted || (c.wallStarts == [] && c.wallEnds == []))
  {
    WithoutAbsent(c.wallStarts, w);
    WithoutAbsent(c.wallEnds, w);
  }

  // ---------------------------------------------------------------------------------------
  // Wall ids

  /** `generateId`: `[start.id, end.id].join()`, whose default separator is a comma. */
  function GenerateId(startId: string, endId: string): string {
    startId + "," + endId
  }

  /** A wall id gives back its corner ids when the start id has no comma: `split(',')` on
      the first comma inverts `generateId`. */
  lemma GenerateIdInjective(s1: string, e1: string, s2: string, e2: string)
    requires ',' !in s1 && ',' !in s2
    requires GenerateId(s1, e1) == GenerateId(s2, e2)
    ensures s1 == s2 && e1 == e2
  {
    var g := GenerateId(s1, e1);
    assert g[|s1|] == ',' && g[|s2|] == ',';
    assert |s1| == |s2|;
    assert s1 == g[..|s1|] == s2;
    assert e1 == g[|s1| + 1..] == e2;
  }

  // ---------------------------------------------------------------------------------------
  // Corner.snapToAxis

  function Abs(r: real): real {
    if r < 0.0 then -r else r
  }

  datatype Snap = Snap(x: real, y: real, snappedX: bool, snappedY: bool)

  /** The x a snap step compares against: an adjacent corner's own x, or, when the wall
      loops back to the corner itself, the corner's live x. */
  function AxisX(ct: seq<Corner>, self: CornerRef, d: CornerRef, s: Snap): real
    requires d < |ct|
  {
    if d == self then s.x else ct[d].x
  }

  function AxisY(ct: seq<Corner>, self: CornerRef, d: CornerRef, s: Snap): real
    requires d < |ct|
  {
    if d == self then s.y else ct[d].y
  }

  /** One callback of `snapToAxis`'s `forEach`: x first, then y, each against the live
      position of the corner. */
  function SnapStep(ct: seq<Corner>, self: CornerRef, d: CornerRef, tolerance: real, s: Snap): Snap
    requires d < |ct|
  {
    var dx := AxisX(ct, self, d, s);
    var s1 := if Abs(dx - s.x) < tolerance then s.(x := dx, snappedX := true) else s;
    var dy := AxisY(ct, self, d, s1);
    if Abs(dy - s1.y) < tolerance then s1.(y := dy, snappedY := true) else s1
  }

  /** The whole `forEach` over the adjacent corners, in order. */
  function SnapOver(ct: seq<Corner>, self: CornerRef, adj: seq<CornerRef>, tolerance: real, s: Snap): Snap
    requires AllBelow(adj, |ct|)
  {
    if adj == [] then s else SnapOver(ct, self, adj[1..], tolerance, SnapStep(ct, self, adj[0], tolerance, s))
  }

  /** The x axis snaps exactly when some adjacent corner is within the tolerance of the
      starting x (a wall back to the corner itself always counts, for a positive
      tolerance), and the snapped x is then the x of an adjacent corner; y alike. */
  lemma {:induction false} SnapOverSpec(ct: seq<Corner>, self: CornerRef, adj: seq<CornerRef>, tolerance: real, s: Snap)
    requires AllBelow(adj, |ct|)
    ensures var r := SnapOver(ct, self, adj, tolerance, s);
      && (r.snappedX <==> s.snappedX || exists d <- adj :: Abs(AxisX(ct, self, d, s) - s.x) < tolerance)
      && (r.snappedY <==> s.snappedY || exists d <- adj :: Abs(AxisY(ct, self, d, s) - s.y) < tolerance)
      && (r.x == s.x || exists d <- adj :: d != self && r.x == ct[d].x)
      && (r.y == s.y || exists d <- adj :: d != self && r.y == ct[d].y)
  {
    if adj != [] {
      var d := adj[0];
      var s' := SnapStep(ct, self, d, tolerance, s);
      SnapOverSpec(ct, self, adj[1..], tolerance, s');
      var r := SnapOver(ct, self, adj, tolerance, s);
      assert forall e <- adj :: e == d || e in adj[1..];
      var s1 := if Abs(AxisX(ct, self, d, s) - s.x) < tolerance then s.(x := AxisX(ct, self, d, s), snappedX := true) else s;
      assert AxisY(ct, self, d, s1) == AxisY(ct, self, d, s);
      if Abs(AxisX(ct, self, d, s) - s.x) >= tolerance {
        assert s'.x == s.x && s'.snappedX == s.snappedX;
        assert forall e <- adj[1..] :: AxisX(ct, self, e, s') == AxisX(ct, self, e, s);
      }
      if Abs(AxisY(ct, self, d, s) - s.y) >= tolerance {
        assert s'.y == s.y && s'.snappedY == s.snappedY;
        assert forall e <- adj[1..] :: AxisY(ct, self, e, s') == AxisY(ct, self, e, s);
      }
    }
  }

  // ---------------------------------------------------------------------------------------
  // Corner.removeAll

  /** The elements at odd positions (the 2nd, the 4th, ...): what a forward loop leaves in
      a list when each visited element splices itself out. */
  function OddIndexed<T>(s: seq<T>): (r: seq<T>)
    ensures |r| == |s| / 2
    ensures forall i :: 0 <= i < |r| ==> r[i] == s[2 * i + 1]
  {
    if |s| < 2 then [] else [s[1]] + OddIndexed(s[2..])
  }

  /** With three start walls, the 2nd one survives `removeAll`'s first loop. */
  lemma OddIndexedOfThree<T>(a: T, b: T, c: T)
    ensures OddIndexed([a, b, c]) == [b]
  {
  }

  // ---------------------------------------------------------------------------------------
  // HalfEdge geometry

  /** `HalfEdge.getStart`: a front edge runs from its wall's start to its end, a back edge
      the other way. */
  function EdgeStart(wt: seq<Wall>, h: HalfEdge): CornerRef
    requires h.wall < |wt|
  {
    if h.front then wt[h.wall].start else wt[h.wall].end
  }

  /** `HalfEdge.getEnd`. */
  function EdgeEnd(wt: seq<Wall>, h: HalfEdge): CornerRef
    requires h.wall < |wt|
  {
    if h.front then wt[h.wall].end else wt[h.wall].start
  }

  /** The two sides of a wall run in opposite directions, the front one from the wall's
      start. */
  lemma EdgeOrientation(wt: seq<Wall>, f: HalfEdge, b: HalfEdge)
    requires f.wall < |wt| && b.wall == f.wall && f.front && !b.front
    ensures EdgeStart(wt, f) == wt[f.wall].start && EdgeEnd(wt, f) == wt[f.wall].end
    ensures EdgeStart(wt, b) == EdgeEnd(wt, f) && EdgeEnd(wt, b) == EdgeStart(wt, f)
  {
  }

  /** A directed segment, as `halfAngleVector` reads an edge. */
  datatype Seg = Seg(start: Point, end: Point)

  /** `Utils2D.angle2pi(x1, y1, x2, y2)`: the counter-clockwise angle between two vectors. */
  type Angle = (real, real, real, real) -> real

  /** The trigonometric tail of `halfAngleVector`: given the angle, the direction of the
      second edge and the offset, rotate the direction by half the angle and scale it to
      `offset / sin(angle / 2)`. */
  type Turn = (real, real, real, real) -> Point

  function Origin(): Point {
    Point(0.0, 0.0)
  }

  /** `HalfEdge.halfAngleVector(v1, v2)`. A missing first edge is replaced by the second
      one shifted back by its own length, a missing second edge by the first one shifted
      forward; both missing leave zeros. */
  function HalfAngleVector(v1: Option<Seg>, v2: Option<Seg>, offset: real, angle2pi: Angle, turn: Turn): Point {
    var a :=
      if v1.None? && v2.Some? then
        Seg(Point(v2.value.start.x - (v2.value.end.x - v2.value.start.x),
                  v2.value.start.y - (v2.value.end.y - v2.value.start.y)),
            v2.value.start)
      else if v1.Some? then v1.value
      else Seg(Origin(), Origin());
    var b :=
      if v2.None? && v1.Some? then
        Seg(v1.value.end,
            Point(v1.value.end.x + (v1.value.end.x - v1.value.start.x),
                  v1.value.end.y + (v1.value.end.y - v1.value.start.y)))
      else if v2.Some? then v2.value
      else Seg(Origin(), Origin());
    var theta := angle2pi(a.start.x - a.end.x, a.start.y - a.end.y, b.end.x - a.end.x, b.end.y - a.end.y);
    turn(theta, b.end.x - b.start.x, b.end.y - b.start.y, offset)
  }

  /** The neighbour that is missing is taken to continue the present edge in a straight
      line: before it, a copy ending at its start; after it, a copy starting at its end. */
  lemma HalfAngleVectorMissingNeighbour(v: Seg, offset: real, angle2pi: Angle, turn: Turn)
    ensures var d := Point(v.end.x - v.start.x, v.end.y - v.start.y);
      && HalfAngleVector(None, Some(v), offset, angle2pi, turn)
         == HalfAngleVector(Some(Seg(Point(v.start.x - d.x, v.start.y - d.y), v.start)), Some(v), offset, angle2pi, turn)
      && HalfAngleVector(Some(v), None, offset, angle2pi, turn)
         == HalfAngleVector(Some(v), Some(Seg(v.end, Point(v.end.x + d.x, v.end.y + d.y))), offset, angle2pi, turn)
  {
  }

  function CornerPoint(ct: seq<Corner>, c: CornerRef): Point
    requires c < |ct|
  {
    Point(ct[c].x, ct[c].y)
  }

  /** The half-edge's wall and that wall's corners are in their tables. */
  predicate EdgeWallOk(ct: seq<Corner>, wt: seq<Wall>, h: HalfEdge) {
    h.wall < |wt| && wt[h.wall].start < |ct| && wt[h.wall].end < |ct|
  }

  /** The segment a half-edge runs along, from its start corner to its end corner. */
  function EdgeSeg(ct: seq<Corner>, wt: seq<Wall>, h: HalfEdge): Seg
    requires EdgeWallOk(ct, wt, h)
  {
    Seg(CornerPoint(ct, EdgeStart(wt, h)), CornerPoint(ct, EdgeEnd(wt, h)))
  }

  /** The segment of a neighbour half-edge, if there is one. */
  function NeighbourSeg(ct: seq<Corner>, wt: seq<Wall>, et: seq<HalfEdge>, o: Option<EdgeRef>): Option<Seg>
    requires TablesOk(ct, wt, et)
    requires OptionBelow(o, |et|)
  {
    if o.None? then None else Some(EdgeSeg(ct, wt, et[o.value]))
  }

  predicate OptionBelow(o: Option<nat>, n: nat) {
    o.Some? ==> o.value < n
  }

  /** The offset vector at the start of half-edge `e`: `halfAngleVector(prev, this)`. */
  function StartVector(ct: seq<Corner>, wt: seq<Wall>, et: seq<HalfEdge>, e: EdgeRef, angle2pi: Angle, turn: Turn): Point
    requires TablesOk(ct, wt, et) && e < |et|
  {
    var h := et[e];
    HalfAngleVector(NeighbourSeg(ct, wt, et, h.prev), Some(EdgeSeg(ct, wt, h)), h.offset, angle2pi, turn)
  }

  /** The offset vector at the end of half-edge `e`: `halfAngleVector(this, next)`. */
  function EndVector(ct: seq<Corner>, wt: seq<Wall>, et: seq<HalfEdge>, e: EdgeRef, angle2pi: Angle, turn: Turn): Point
    requires TablesOk(ct, wt, et) && e < |et|
  {
    var h := et[e];
    HalfAngleVector(Some(EdgeSeg(ct, wt, h)), NeighbourSeg(ct, wt, et, h.next), h.offset, angle2pi, turn)
  }

  function Plus(p: Point, v: Point): Point {
    Point(p.x + v.x, p.y + v.y)
  }

  function Minus(p: Point, v: Point): Point {
    Point(p.x - v.x, p.y - v.y)
  }

  function Midpoint(p: Point, q: Point): Point {
    Point((p.x + q.x) / 2.0, (p.y + q.y) / 2.0)
  }

  /** `HalfEdge.interiorStart`. */
  function InteriorStart(ct: seq<Corner>, wt: seq<Wall>, et: seq<HalfEdge>, e: EdgeRef, angle2pi: Angle, turn: Turn): Point
    requires TablesOk(ct, wt, et) && e < |et|
  {
    Plus(CornerPoint(ct, EdgeStart(wt, et[e])), StartVector(ct, wt, et, e, angle2pi, turn))
  }

  /** `HalfEdge.interiorEnd`. */
  function InteriorEnd(ct: seq<Corner>, wt: seq<Wall>, et: seq<HalfEdge>, e: EdgeRef, angle2pi: Angle, turn: Turn): Point
    requires TablesOk(ct, wt, et) && e < |et|
  {
    Plus(CornerPoint(ct, EdgeEnd(wt, et[e])), EndVector(ct, wt, et, e, angle2pi, turn))
  }

  /** `HalfEdge.exteriorStart`. */
  function ExteriorStart(ct: seq<Corner>, wt: seq<Wall>, et: seq<HalfEdge>, e: EdgeRef, angle2pi: Angle, turn: Turn): Point
    requires TablesOk(ct, wt, et) && e < |et|
  {
    Minus(CornerPoint(ct, EdgeStart(wt, et[e])), StartVector(ct, wt, et, e, angle2pi, turn))
  }

  /** `HalfEdge.exteriorEnd`. */
  function ExteriorEnd(ct: seq<Corner>, wt: seq<Wall>, et: seq<HalfEdge>, e: EdgeRef, angle2pi: Angle, turn: Turn): Point
    requires TablesOk(ct, wt, et) && e < |et|
  {
    Minus(CornerPoint(ct, EdgeEnd(wt, et[e])), EndVector(ct, wt, et, e, angle2pi, turn))
  }

  /** `HalfEdge.corners`: the outline of the wall side, interior start and end, then
      exterior end and start. */
  function EdgeCorners(ct: seq<Corner>, wt: seq<Wall>, et: seq<HalfEdge>, e: EdgeRef, angle2pi: Angle, turn: Turn): seq<Point>
    requires TablesOk(ct, wt, et) && e < |et|
  {
    [InteriorStart(ct, wt, et, e, angle2pi, turn), InteriorEnd(ct, wt, et, e, angle2pi, turn),
     ExteriorEnd(ct, wt, et, e, angle2pi, turn), ExteriorStart(ct, wt, et, e, angle2pi, turn)]
  }

  /** `HalfEdge.interiorCenter`. */
  function InteriorCenter(ct: seq<Corner>, wt: seq<Wall>, et: seq<HalfEdge>, e: EdgeRef, angle2pi: Angle, turn: Turn): Point
    requires TablesOk(ct, wt, et) && e < |et|
  {
    Midpoint(InteriorStart(ct, wt, et, e, angle2pi, turn), InteriorEnd(ct, wt, et, e, angle2pi, turn))
  }

  /** The outline is four points whose first and last straddle the start corner and whose
      middle two straddle the end corner: the interior and exterior points are the corner
      plus and minus one and the same vector. */
  lemma EdgeCornersStraddle(ct: seq<Corner>, wt: seq<Wall>, et: seq<HalfEdge>, e: EdgeRef, angle2pi: Angle, turn: Turn)
    requires TablesOk(ct, wt, et) && e < |et|
    ensures var q := EdgeCorners(ct, wt, et, e, angle2pi, turn);
      && |q| == 4
      && Midpoint(q[0], q[3]) == CornerPoint(ct, EdgeStart(wt, et[e]))
      && Midpoint(q[1], q[2]) == CornerPoint(ct, EdgeEnd(wt, et[e]))
  {
  }

  /** The interior centre is the point halfway along the interior side, as far from its
      start as from its end. */
  lemma InteriorCenterHalfway(ct: seq<Corner>, wt: seq<Wall>, et: seq<HalfEdge>, e: EdgeRef, angle2pi: Angle, turn: Turn)
    requires TablesOk(ct, wt, et) && e < |et|
    ensures var p := InteriorStart(ct, wt, et, e, angle2pi, turn);
      var q := InteriorEnd(ct, wt, et, e, angle2pi, turn);
      var m := InteriorCenter(ct, wt, et, e, angle2pi, turn);
      && m == Lerp(p.x, p.y, q.x, q.y, 0.5)
      && DistanceSq(m.x, m.y, p.x, p.y) == DistanceSq(m.x, m.y, q.x, q.y)
  {
    var p := InteriorStart(ct, wt, et, e, angle2pi, turn);
    var q := InteriorEnd(ct, wt, et, e, angle2pi, turn);
    var m := InteriorCenter(ct, wt, et, e, angle2pi, turn);
    assert m.x == (p.x + q.x) / 2.0 && m.y == (p.y + q.y) / 2.0;
    assert p.x - m.x == -(q.x - m.x) && p.y - m.y == -(q.y - m.y);
    SqNegate(q.x - m.x);
    SqNegate(q.y - m.y);
  }

  lemma SqNegate(r: real)
    ensures Sq(-r) == Sq(r)
  {
  }

  // ---------------------------------------------------------------------------------------
  // Room.updateWalls: the links it leaves between the half-edges it builds

  /** Slot `i` holds the half-edge built for the corner pair `(i, i + 1 mod n)`, if the two
      corners are joined by a wall. The last step closes the ring when there are at least
      two pairs and the last two pairs both got a half-edge. */
  predicate Closes(slots: seq<Option<EdgeRef>>) {
    |slots| >= 2 && slots[|slots| - 1].Some? && slots[|slots| - 2].Some?
  }

  /** The `next` link of the half-edge in slot `j` once `|slots|` of the `n` pairs are done. */
  function NextLink(slots: seq<Option<EdgeRef>>, n: nat, j: nat): Option<EdgeRef>
    requires j < |slots| <= n
  {
    if j + 1 < |slots| then slots[j + 1]
    else if |slots| == n && Closes(slots) then slots[0]
    else None
  }

  /** The `prev` link of the half-edge in slot `j` once `|slots|` of the `n` pairs are done. */
  function PrevLink(slots: seq<Option<EdgeRef>>, n: nat, j: nat): Option<EdgeRef>
    requires j < |slots| <= n
  {
    if j >= 1 then slots[j - 1]
    else if |slots| == n && Closes(slots) then slots[n - 1]
    else None
  }

  /** When every pair of consecutive corners (the last with the first included) is joined,
      the links form a closed ring: slot `j` is followed by slot `j + 1 mod n` and preceded
      by slot `j - 1 mod n`. */
  lemma ClosedRingLinks(slots: seq<Option<EdgeRef>>, j: nat)
    requires |slots| >= 2 && j < |slots|
    requires forall i :: 0 <= i < |slots| ==> slots[i].Some?
    ensures NextLink(slots, |slots|, j) == slots[Wrap(j + 1, |slots|)]
    ensures PrevLink(slots, |slots|, j) == slots[Wrap(j + |slots| - 1, |slots|)]
  {
  }
}
