/** What `Room` (src/components/2d/Room.ts) builds from a cyclic list of corners: one
    half-edge per pair of consecutive corners that a wall joins, linked into a ring
    (`updateWalls`), and the inner outline read by walking that ring (`updateInteriorCorners`).
    The half-edges are numbered in the order they are created, so the ring is described by
    the list of slots: slot `i` holds the half-edge built for the pair `(i, i + 1 mod n)`,
    or nothing when no wall joins the pair. */
module Rooms {
  import opened Wrappers
  import opened Utils
  import opened Utils2D
  import opened Graph

  /** A side of a wall: the front runs from the wall's start to its end, the back the other
      way. */
  datatype Side = Side(wall: WallRef, front: bool)

  /** The side `updateWalls` builds a half-edge on for the pair `(cs[i], cs[i + 1 mod n])`:
      the front of `wallTo`, else the back of `wallFrom`, else none. */
  function PickSide(ct: seq<Corner>, wt: seq<Wall>, cs: seq<CornerRef>, i: nat): (r: Option<Side>)
    requires CornerListsOk(ct, |wt|) && AllBelow(cs, |ct|) && i < |cs|
    ensures r.Some? ==> r.value.wall < |wt|
  {
    var a := ct[cs[i]];
    var b := cs[Wrap(i + 1, |cs|)];
    match FirstEndingAt(wt, a.wallStarts, b)
    case Some(w) => Some(Side(w, true))
    case None =>
      match FirstStartingAt(wt, a.wallEnds, b)
      case Some(w) => Some(Side(w, false))
      case None => None
  }

  /** The picked side is the front of the first start wall of `cs[i]` that ends at the next
      corner; failing that, the back of the first end wall that starts there; there is none
      exactly when no wall of `cs[i]` reaches the next corner either way. */
  lemma PickSideSpec(ct: seq<Corner>, wt: seq<Wall>, cs: seq<CornerRef>, i: nat)
    requires CornerListsOk(ct, |wt|) && AllBelow(cs, |ct|) && i < |cs|
    ensures var a := ct[cs[i]];
      var b := cs[Wrap(i + 1, |cs|)];
      var r := PickSide(ct, wt, cs, i);
      && (r.Some? && r.value.front <==> exists w <- a.wallStarts :: wt[w].end == b)
      && (r.Some? && r.value.front ==> r.value.wall == FirstEndingAt(wt, a.wallStarts, b).value)
      && (r.Some? && !r.value.front ==> r.value.wall == FirstStartingAt(wt, a.wallEnds, b).value)
      && (r.None? <==> (forall w <- a.wallStarts :: wt[w].end != b) && (forall w <- a.wallEnds :: wt[w].start != b))
  {
    var a := ct[cs[i]];
    var b := cs[Wrap(i + 1, |cs|)];
    FirstEndingAtIsFirst(wt, a.wallStarts, b);
    FirstStartingAtIsFirst(wt, a.wallEnds, b);
  }

  /** With the incidence sound, the half-edge on the picked side runs from `cs[i]` to the
      next corner. */
  lemma PickSideRuns(ct: seq<Corner>, wt: seq<Wall>, cs: seq<CornerRef>, i: nat, h: HalfEdge)
    requires CornerListsOk(ct, |wt|) && Sound(ct, wt) && AllBelow(cs, |ct|) && i < |cs|
    requires PickSide(ct, wt, cs, i) == Some(Side(h.wall, h.front))
    ensures EdgeStart(wt, h) == cs[i] && Graph.EdgeEnd(wt, h) == cs[Wrap(i + 1, |cs|)]
  {
    var a := ct[cs[i]];
    var b := cs[Wrap(i + 1, |cs|)];
    if h.front {
      FirstEndingAtIsFirst(wt, a.wallStarts, b);
    } else {
      FirstStartingAtIsFirst(wt, a.wallEnds, b);
    }
  }

  /** The sides picked for all pairs, in order. */
  function Picks(ct: seq<Corner>, wt: seq<Wall>, cs: seq<CornerRef>): (r: seq<Option<Side>>)
    requires CornerListsOk(ct, |wt|) && AllBelow(cs, |ct|)
    ensures |r| == |cs|
    ensures forall i :: 0 <= i < |cs| ==> r[i] == PickSide(ct, wt, cs, i)
  {
    seq(|cs|, i requires 0 <= i < |cs| => PickSide(ct, wt, cs, i))
  }

  /** Two wall tables with the same corners on every wall. */
  predicate SameEnds(wt: seq<Wall>, wt2: seq<Wall>) {
    |wt| == |wt2| && forall w :: 0 <= w < |wt| ==> wt2[w].start == wt[w].start && wt2[w].end == wt[w].end
  }

  lemma {:induction false} FirstEndingAtSameEnds(wt: seq<Wall>, wt2: seq<Wall>, ws: seq<WallRef>, d: CornerRef)
    requires SameEnds(wt, wt2) && AllBelow(ws, |wt|)
    ensures FirstEndingAt(wt, ws, d) == FirstEndingAt(wt2, ws, d)
  {
    if ws != [] {
      FirstEndingAtSameEnds(wt, wt2, ws[1..], d);
    }
  }

  lemma {:induction false} FirstStartingAtSameEnds(wt: seq<Wall>, wt2: seq<Wall>, ws: seq<WallRef>, d: CornerRef)
    requires SameEnds(wt, wt2) && AllBelow(ws, |wt|)
    ensures FirstStartingAt(wt, ws, d) == FirstStartingAt(wt2, ws, d)
  {
    if ws != [] {
      FirstStartingAtSameEnds(wt, wt2, ws[1..], d);
    }
  }

  /** The picks read only the corners of the walls: building half-edges, which changes
      nothing else of a wall, never changes them. */
  lemma PicksSameEnds(ct: seq<Corner>, wt: seq<Wall>, wt2: seq<Wall>, cs: seq<CornerRef>)
    requires CornerListsOk(ct, |wt|) && AllBelow(cs, |ct|) && SameEnds(wt, wt2)
    ensures Picks(ct, wt, cs) == Picks(ct, wt2, cs)
  {
    forall i | 0 <= i < |cs| ensures PickSide(ct, wt, cs, i) == PickSide(ct, wt2, cs, i) {
      var a := ct[cs[i]];
      var b := cs[Wrap(i + 1, |cs|)];
      FirstEndingAtSameEnds(wt, wt2, a.wallStarts, b);
      FirstStartingAtSameEnds(wt, wt2, a.wallEnds, b);
    }
  }

  // ---------------------------------------------------------------------------------------
  // Slots

  /** How many entries are present. */
  function CountSome<T>(s: seq<Option<T>>): (k: nat)
    ensures k <= |s|
    decreases |s|
  {
    if s == [] then 0 else CountSome(s[..|s| - 1]) + (if s[|s| - 1].Some? then 1 else 0)
  }

  /** A longer prefix holds at least as many entries, and one more when the extra part
      has one. */
  lemma {:induction false} CountSomeGrows<T>(s: seq<Option<T>>, j: nat, l: nat)
    requires j < l <= |s|
    ensures CountSome(s[..l]) >= CountSome(s[..j]) + (if s[j].Some? then 1 else 0)
    decreases l
  {
    assert s[..l][..l - 1] == s[..l - 1];
    if j < l - 1 {
      CountSomeGrows(s, j, l - 1);
    }
  }

  /** Slot `i` holds the `k`-th half-edge built, counting from `base`, when it is the
      `k`-th pair (from 0) that got one. */
  function SlotsOf(picks: seq<Option<Side>>, base: nat): (r: seq<Option<EdgeRef>>)
    ensures |r| == |picks|
    ensures forall i :: 0 <= i < |picks| ==> (r[i].Some? <==> picks[i].Some?)
  {
    seq(|picks|, i requires 0 <= i < |picks| =>
      if picks[i].Some? then Some(base + CountSome(picks[..i])) else None)
  }

  /** Half-edges are numbered from `base` up, each slot a different one, all below the
      number of half-edges built. */
  lemma SlotsOrdered(picks: seq<Option<Side>>, base: nat, j: nat, l: nat)
    requires j < l < |picks| && picks[j].Some? && picks[l].Some?
    ensures base <= SlotsOf(picks, base)[j].value < SlotsOf(picks, base)[l].value
  {
    CountSomeGrows(picks, j, l);
  }

  lemma SlotBelow(picks: seq<Option<Side>>, base: nat, j: nat)
    requires j < |picks| && picks[j].Some?
    ensures SlotsOf(picks, base)[j].value < base + CountSome(picks)
  {
    assert picks[..|picks|] == picks;
    CountSomeGrows(picks, j, |picks|);
  }

  /** Adding one more pick adds one more slot and leaves the others alone. */
  lemma SlotsSnoc(picks: seq<Option<Side>>, base: nat, i: nat)
    requires i < |picks|
    ensures SlotsOf(picks[..i + 1], base)
      == SlotsOf(picks[..i], base) + [if picks[i].Some? then Some(base + CountSome(picks[..i])) else None]
  {
    var a := SlotsOf(picks[..i + 1], base);
    var b := SlotsOf(picks[..i], base) + [if picks[i].Some? then Some(base + CountSome(picks[..i])) else None];
    forall j | 0 <= j <= i ensures a[j] == b[j] {
      assert picks[..i + 1][..j] == picks[..j];
      assert picks[..i + 1][j] == picks[j];
      if j < i {
        assert picks[..i][..j] == picks[..j];
        assert picks[..i][j] == picks[j];
      }
    }
    assert a == b;
  }

  /** The half-edge built for a side, before it is linked: offset half the wall's
      thickness, height the wall's. */
  function EdgeFor(wt: seq<Wall>, s: Side, prev: Option<EdgeRef>, next: Option<EdgeRef>): (h: HalfEdge)
    requires s.wall < |wt|
    ensures h.wall == s.wall && h.front == s.front && h.prev == prev && h.next == next
  {
    HalfEdge(s.wall, s.front, prev, next, wt[s.wall].thickness / 2.0, wt[s.wall].height)
  }

  /** After the first `|slots|` pairs: every built half-edge sits on its picked side with the
      links `updateWalls` gives it at that point. */
  predicate RingInv(et: seq<HalfEdge>, wt: seq<Wall>, picks: seq<Option<Side>>, slots: seq<Option<EdgeRef>>, n: nat) {
    && |slots| <= n && |slots| <= |picks|
    && forall j :: 0 <= j < |slots| && slots[j].Some? ==>
      && picks[j].Some? && picks[j].value.wall < |wt| && slots[j].value < |et|
      && et[slots[j].value] == EdgeFor(wt, picks[j].value, PrevLink(slots, n, j), NextLink(slots, n, j))
  }

  /** No half-edge sits in two slots. */
  predicate SlotsDistinct(slots: seq<Option<EdgeRef>>) {
    forall j, l :: 0 <= j < l < |slots| && slots[j].Some? ==> slots[j] != slots[l]
  }

  /** The links `updateWalls` writes when the pair `|slots|` got half-edge `e` (already in
      `et`): `e.prev` to the previous half-edge, and when there is one, its `next` to `e`;
      at the last pair, also the first half-edge's `prev` to `e` and `e.next` to the first. */
  function LinkedRing(et: seq<HalfEdge>, slots: seq<Option<EdgeRef>>, n: nat, e: EdgeRef): seq<HalfEdge>
    requires e < |et| && 1 <= |slots|
    requires forall j :: 0 <= j < |slots| && slots[j].Some? ==> slots[j].value < |et|
  {
    var i := |slots|;
    var prevEdge := slots[i - 1];
    var et1 := et[e := et[e].(prev := prevEdge)];
    if prevEdge.None? then et1
    else
      var et2 := et1[prevEdge.value := et1[prevEdge.value].(next := Some(e))];
      if i + 1 != n then et2
      else
        var et3 := if slots[0].Some? then et2[slots[0].value := et2[slots[0].value].(prev := Some(e))] else et2;
        et3[e := et3[e].(next := slots[0])]
  }

  /** Linking rewrites only links, and only of the new half-edge, the previous pair's and
      the first pair's; each link it writes is a slot or the new half-edge. */
  lemma LinkedRingShape(et: seq<HalfEdge>, slots: seq<Option<EdgeRef>>, n: nat, e: EdgeRef)
    requires e < |et| && 1 <= |slots|
    requires forall j :: 0 <= j < |slots| && slots[j].Some? ==> slots[j].value < |et|
    ensures |LinkedRing(et, slots, n, e)| == |et|
    ensures forall k :: 0 <= k < |et| ==>
      var h := LinkedRing(et, slots, n, e)[k];
      && h.wall == et[k].wall && h.front == et[k].front && h.offset == et[k].offset && h.height == et[k].height
      && (h.prev == et[k].prev || h.prev == slots[|slots| - 1] || h.prev == Some(e))
      && (h.next == et[k].next || h.next == slots[0] || h.next == Some(e))
    ensures forall k :: 0 <= k < |et| && k != e && slots[|slots| - 1] != Some(k) && slots[0] != Some(k) ==>
      LinkedRing(et, slots, n, e)[k] == et[k]
  {
  }

  /** A pair no wall joins adds an empty slot and changes no half-edge. */
  lemma RingStepNone(et: seq<HalfEdge>, wt: seq<Wall>, picks: seq<Option<Side>>, slots: seq<Option<EdgeRef>>, n: nat)
    requires RingInv(et, wt, picks, slots, n) && |slots| < n && |slots| < |picks| && picks[|slots|].None?
    ensures RingInv(et, wt, picks, slots + [None], n)
  {
    var s2 := slots + [None];
    forall j | 0 <= j < |s2| && s2[j].Some?
      ensures PrevLink(s2, n, j) == PrevLink(slots, n, j) && NextLink(s2, n, j) == NextLink(slots, n, j)
    {
    }
  }

  /** The first pair, when joined, gets a half-edge with no links yet. */
  lemma RingStepFirst(et: seq<HalfEdge>, wt: seq<Wall>, picks: seq<Option<Side>>, n: nat)
    requires 0 < n && 0 < |picks| && picks[0].Some? && picks[0].value.wall < |wt|
    ensures RingInv(et + [EdgeFor(wt, picks[0].value, None, None)], wt, picks, [Some(|et|)], n)
  {
  }

  /** A later joined pair gets a new half-edge, linked as `Linked` says. */
  lemma RingStepLink(et: seq<HalfEdge>, wt: seq<Wall>, picks: seq<Option<Side>>, slots: seq<Option<EdgeRef>>, n: nat)
    requires RingInv(et, wt, picks, slots, n) && 1 <= |slots| < n && |slots| < |picks|
    requires picks[|slots|].Some? && picks[|slots|].value.wall < |wt|
    requires SlotsDistinct(slots)
    ensures var e := |et|;
      var et1 := et + [EdgeFor(wt, picks[|slots|].value, None, None)];
      RingInv(LinkedRing(et1, slots, n, e), wt, picks, slots + [Some(e)], n)
  {
    var e := |et|;
    var i := |slots|;
    var et1 := et + [EdgeFor(wt, picks[i].value, None, None)];
    var s2 := slots + [Some(e)];
    var et2 := LinkedRing(et1, slots, n, e);
    assert |et2| == |et1|;
    forall j | 0 <= j < |s2| && s2[j].Some?
      ensures picks[j].Some? && picks[j].value.wall < |wt| && s2[j].value < |et2|
      ensures et2[s2[j].value] == EdgeFor(wt, picks[j].value, PrevLink(s2, n, j), NextLink(s2, n, j))
    {
      if j < i {
        assert s2[j] == slots[j];
        var h := et1[slots[j].value];
        assert h == EdgeFor(wt, picks[j].value, PrevLink(slots, n, j), NextLink(slots, n, j));
        if j == i - 1 {
          if j == 0 && i + 1 == n {
            assert et2[s2[j].value] == h.(next := Some(e), prev := Some(e));
          } else {
            assert et2[s2[j].value] == h.(next := Some(e));
          }
        } else if j == 0 && i + 1 == n && slots[i - 1].Some? {
          assert et2[s2[j].value] == h.(prev := Some(e));
        } else {
          assert et2[s2[j].value] == h;
        }
      }
    }
  }

  // ---------------------------------------------------------------------------------------
  // Which half-edge a wall side ends up pointing to

  /** The half-edge a wall side points to after the picks: the one of the last pair that
      picked it (each new half-edge overwrites the side), else what it pointed to before. */
  function SideEdge(picks: seq<Option<Side>>, slots: seq<Option<EdgeRef>>, s: Side, before: Option<EdgeRef>): Option<EdgeRef>
    requires |picks| == |slots|
    decreases |picks|
  {
    if picks == [] then before
    else if picks[|picks| - 1] == Some(s) then slots[|slots| - 1]
    else SideEdge(picks[..|picks| - 1], slots[..|slots| - 1], s, before)
  }

  /** A side no pair picked keeps its half-edge; a side some pair picked points to the
      slot of such a pair. */
  lemma {:induction false} SideEdgeSpec(picks: seq<Option<Side>>, slots: seq<Option<EdgeRef>>, s: Side, before: Option<EdgeRef>)
    requires |picks| == |slots|
    ensures (forall j :: 0 <= j < |picks| ==> picks[j] != Some(s)) ==> SideEdge(picks, slots, s, before) == before
    ensures (exists j :: 0 <= j < |picks| && picks[j] == Some(s)) ==>
      exists j :: 0 <= j < |picks| && picks[j] == Some(s) && SideEdge(picks, slots, s, before) == slots[j]
    decreases |picks|
  {
    if picks != [] {
      var k := |picks| - 1;
      SideEdgeSpec(picks[..k], slots[..k], s, before);
      if picks[k] != Some(s) {
        if exists j :: 0 <= j < |picks| && picks[j] == Some(s) {
          var j :| 0 <= j < |picks| && picks[j] == Some(s);
          assert picks[..k][j] == picks[j];
          var j2 :| 0 <= j2 < k && picks[..k][j2] == Some(s) && SideEdge(picks[..k], slots[..k], s, before) == slots[..k][j2];
          assert picks[j2] == Some(s);
        }
        assert forall j :: 0 <= j < k ==> picks[..k][j] == picks[j];
      }
    }
  }

  /** One more pick: the side it names now points to the new slot, every other side keeps
      its value. */
  lemma SideEdgeSnoc(picks: seq<Option<Side>>, slots: seq<Option<EdgeRef>>, i: nat, slot: Option<EdgeRef>, s: Side, before: Option<EdgeRef>)
    requires i < |picks| && |slots| == i
    ensures SideEdge(picks[..i + 1], slots + [slot], s, before)
      == if picks[i] == Some(s) then slot else SideEdge(picks[..i], slots, s, before)
  {
    assert picks[..i + 1][..i] == picks[..i];
    assert (slots + [slot])[..i] == slots;
  }

  // ---------------------------------------------------------------------------------------
  // updateInteriorCorners

  /** The number of leading slots that hold a half-edge. */
  function SomePrefix<T>(s: seq<Option<T>>): (m: nat)
    ensures m <= |s|
    ensures forall k :: 0 <= k < m ==> s[k].Some?
    ensures m < |s| ==> s[m].None?
  {
    if s == [] || s[0].None? then 0
    else
      var m := SomePrefix(s[1..]);
      assert forall k :: 1 <= k < m + 1 ==> s[k] == s[1..][k - 1];
      m + 1
  }

  /** One step of the walk of `updateInteriorCorners` from the `k`-th slot: the next link
      leads back to the first slot exactly when `k` is the last of the leading run of
      half-edges; otherwise it is the next slot, or nothing at the end of the run. */
  lemma WalkStep(slots: seq<Option<EdgeRef>>, k: nat)
    requires SlotsDistinct(slots) && k < SomePrefix(slots)
    ensures var next := NextLink(slots, |slots|, k);
      && (next == slots[0] ==> k + 1 == SomePrefix(slots))
      && (next != slots[0] && next.Some? ==> k + 1 < SomePrefix(slots) && next == slots[k + 1])
      && (next != slots[0] && next.None? ==> k + 1 == SomePrefix(slots))
  {
    var m := SomePrefix(slots);
    if k + 1 < |slots| {
      assert NextLink(slots, |slots|, k) == slots[k + 1];
      if slots[k + 1].Some? && k + 1 > 0 {
        assert slots[0] != slots[k + 1];
      }
    }
  }

  /** What the walk of `updateInteriorCorners` pushes: the interior start of each half-edge
      from the first slot on, up to the first pair without one. */
  function InteriorWalk(ct: seq<Corner>, wt: seq<Wall>, et: seq<HalfEdge>, slots: seq<Option<EdgeRef>>, angle2pi: Angle, turn: Turn): (r: seq<Point>)
    requires TablesOk(ct, wt, et)
    requires forall j :: 0 <= j < |slots| && slots[j].Some? ==> slots[j].value < |et|
    ensures |r| == SomePrefix(slots)
  {
    seq(SomePrefix(slots), k requires 0 <= k < SomePrefix(slots) =>
      InteriorStart(ct, wt, et, slots[k].value, angle2pi, turn))
  }

  /** Every built half-edge's `next` is the one the ring gives it once all pairs are done. */
  predicate WalkLinks(et: seq<HalfEdge>, slots: seq<Option<EdgeRef>>) {
    forall j :: 0 <= j < |slots| && slots[j].Some? ==>
      slots[j].value < |et| && et[slots[j].value].next == NextLink(slots, |slots|, j)
  }

  lemma RingWalkLinks(et: seq<HalfEdge>, wt: seq<Wall>, picks: seq<Option<Side>>, slots: seq<Option<EdgeRef>>)
    requires RingInv(et, wt, picks, slots, |slots|)
    ensures WalkLinks(et, slots)
  {
  }

  /** `updateInteriorCorners`: from the room's first half-edge, push each half-edge's
      interior start and follow `next`, until the walk comes back to the first half-edge or
      runs out. On a ring `updateWalls` built, it visits exactly the half-edges of the
      leading run of joined pairs, in order. */
  method InteriorCorners(ct: seq<Corner>, wt: seq<Wall>, et: seq<HalfEdge>, edgePointer: Option<EdgeRef>,
                         ghost slots: seq<Option<EdgeRef>>, angle2pi: Angle, turn: Turn) returns (pts: seq<Point>)
    requires TablesOk(ct, wt, et)
    requires WalkLinks(et, slots) && SlotsDistinct(slots)
    requires edgePointer == if slots == [] then None else slots[0]
    ensures pts == InteriorWalk(ct, wt, et, slots, angle2pi, turn)
  {
    pts := [];
    var edge := edgePointer;
    ghost var k := 0;
    ghost var m := SomePrefix(slots);
    ghost var walk := InteriorWalk(ct, wt, et, slots, angle2pi, turn);
    while edge.Some?
      invariant k <= m
      invariant edge.Some? ==> k < m && edge == slots[k]
      invariant edge.None? ==> k == m
      invariant pts == walk[..k]
      decreases m - k
    {
      pts := pts + [InteriorStart(ct, wt, et, edge.value, angle2pi, turn)];
      assert walk[..k + 1] == walk[..k] + [walk[k]];
      WalkStep(slots, k);
      if et[edge.value].next == edgePointer {
        k := k + 1;
        break;
      }
      edge := et[edge.value].next;
      k := k + 1;
    }
    assert walk[..m] == walk;
  }

  /** When a wall joins every pair of consecutive corners (the last with the first
      included) of at least two corners, the half-edges form a closed ring: each is followed
      by the next pair's and preceded by the previous pair's, cyclically. */
  lemma ClosedRing(et: seq<HalfEdge>, wt: seq<Wall>, picks: seq<Option<Side>>, slots: seq<Option<EdgeRef>>)
    requires |slots| >= 2 && RingInv(et, wt, picks, slots, |slots|)
    requires forall i :: 0 <= i < |slots| ==> slots[i].Some?
    ensures forall j :: 0 <= j < |slots| ==>
      && et[slots[j].value].next == slots[Wrap(j + 1, |slots|)]
      && et[slots[j].value].prev == slots[Wrap(j + |slots| - 1, |slots|)]
  {
    forall j | 0 <= j < |slots|
      ensures et[slots[j].value].next == slots[Wrap(j + 1, |slots|)]
      ensures et[slots[j].value].prev == slots[Wrap(j + |slots| - 1, |slots|)]
    {
      ClosedRingLinks(slots, j);
    }
  }
}
