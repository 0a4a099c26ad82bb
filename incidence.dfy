/** The corner/wall incidence kept by `Corner` and `Wall` (src/components/2d/Corner.ts and
    Wall.ts), stated on the corner and wall tables: every listed wall is in the table and
    names the listing corner at the matching end, no corner lists a wall twice, every
    corner has an id. Each lemma here shows one of the updates the two classes make keeps
    that invariant. */
module Incidence {
  import opened Utils
  import opened Utils2D
  import opened Graph
  import opened RoomSearch

  /** The incidence invariant of the corner and wall tables. */
  predicate IncidenceOk(ct: seq<Corner>, wt: seq<Wall>) {
    && GraphOk(ct, wt)
    && Sound(ct, wt)
    && ListsDistinct(ct)
    && IdsNonEmpty(ct)
  }

  /** `Corner.attachStart`: the wall appended to the start list. */
  function WithStart(c: Corner, w: WallRef): Corner {
    c.(wallStarts := c.wallStarts + [w])
  }

  /** `Corner.attachEnd`: the wall appended to the end list. */
  function WithEnd(c: Corner, w: WallRef): Corner {
    c.(wallEnds := c.wallEnds + [w])
  }

  /** The corner table after `Wall`'s constructor registered wall `w` from `s` to `e`:
      first on the start corner, then on the end corner. */
  function Registered(ct: seq<Corner>, s: CornerRef, e: CornerRef, w: WallRef): seq<Corner>
    requires s < |ct| && e < |ct|
  {
    var ct1 := ct[s := WithStart(ct[s], w)];
    ct1[e := WithEnd(ct1[e], w)]
  }

  /** The corner table after `c.detachWall(w)`. */
  function Detached(ct: seq<Corner>, c: CornerRef, w: WallRef): seq<Corner>
    requires c < |ct|
  {
    ct[c := Detach(ct[c], w)]
  }

  /** Changing only positions and flags of corners keeps the invariant. */
  lemma SameListsKeepIncidence(ct: seq<Corner>, ct2: seq<Corner>, wt: seq<Wall>)
    requires IncidenceOk(ct, wt) && |ct2| == |ct|
    requires forall k :: 0 <= k < |ct| ==>
      ct2[k].wallStarts == ct[k].wallStarts && ct2[k].wallEnds == ct[k].wallEnds && ct2[k].id == ct[k].id
    ensures IncidenceOk(ct2, wt)
  {
  }

  /** Changing fields of a wall other than its corners keeps the invariant. */
  lemma SameCornersKeepIncidence(ct: seq<Corner>, wt: seq<Wall>, wt2: seq<Wall>)
    requires IncidenceOk(ct, wt) && |wt2| == |wt|
    requires forall v :: 0 <= v < |wt| ==> wt2[v].start == wt[v].start && wt2[v].end == wt[v].end
    ensures IncidenceOk(ct, wt2)
  {
  }

  /** Detaching a wall from a corner keeps the invariant, whatever the wall. */
  lemma DetachKeepsIncidence(ct: seq<Corner>, wt: seq<Wall>, c: CornerRef, w: WallRef)
    requires IncidenceOk(ct, wt) && c < |ct|
    ensures IncidenceOk(Detached(ct, c, w), wt)
  {
    var d := Detach(ct[c], w);
    var ct2 := Detached(ct, c, w);
    forall v ensures (v in d.wallStarts ==> v in ct[c].wallStarts) && (v in d.wallEnds ==> v in ct[c].wallEnds) {
      DetachSpec(ct[c], w, v);
    }
    WithoutDistinct(ct[c].wallStarts, w);
    WithoutDistinct(ct[c].wallEnds, w);
    forall k, i | 0 <= k < |ct2| && 0 <= i < |ct2[k].wallStarts|
      ensures ct2[k].wallStarts[i] < |wt| && wt[ct2[k].wallStarts[i]].start == k
    {
      assert ct2[k].wallStarts[i] in ct[k].wallStarts;
    }
    forall k, i | 0 <= k < |ct2| && 0 <= i < |ct2[k].wallEnds|
      ensures ct2[k].wallEnds[i] < |wt| && wt[ct2[k].wallEnds[i]].end == k
    {
      assert ct2[k].wallEnds[i] in ct[k].wallEnds;
    }
  }

  /** Registering a new wall `w == |wt|` from `s` to `e` keeps the invariant. */
  lemma RegisterKeepsIncidence(ct: seq<Corner>, wt: seq<Wall>, s: CornerRef, e: CornerRef, wall: Wall)
    requires IncidenceOk(ct, wt) && s < |ct| && e < |ct|
    requires wall.start == s && wall.end == e
    ensures IncidenceOk(Registered(ct, s, e, |wt|), wt + [wall])
  {
    var w := |wt|;
    var wt2 := wt + [wall];
    var ct2 := Registered(ct, s, e, w);
    forall k | 0 <= k < |ct|
      ensures w !in ct[k].wallStarts && w !in ct[k].wallEnds
    {
    }
    forall k | 0 <= k < |ct2|
      ensures ct2[k].wallStarts == ct[k].wallStarts + (if k == s then [w] else [])
      ensures ct2[k].wallEnds == ct[k].wallEnds + (if k == e then [w] else [])
      ensures ct2[k].id == ct[k].id
    {
    }
    forall k | 0 <= k < |ct2|
      ensures Distinct(ct2[k].wallStarts) && Distinct(ct2[k].wallEnds)
    {
      if k == s {
        DistinctSnoc(ct[k].wallStarts, w);
      }
      if k == e {
        DistinctSnoc(ct[k].wallEnds, w);
      }
    }
    forall k, i | 0 <= k < |ct2| && 0 <= i < |ct2[k].wallStarts|
      ensures ct2[k].wallStarts[i] < |wt2| && wt2[ct2[k].wallStarts[i]].start == k
    {
      if i < |ct[k].wallStarts| {
        assert ct2[k].wallStarts[i] == ct[k].wallStarts[i];
      }
    }
    forall k, i | 0 <= k < |ct2| && 0 <= i < |ct2[k].wallEnds|
      ensures ct2[k].wallEnds[i] < |wt2| && wt2[ct2[k].wallEnds[i]].end == k
    {
      if i < |ct[k].wallEnds| {
        assert ct2[k].wallEnds[i] == ct[k].wallEnds[i];
      }
    }
  }

  /** No corner lists `w` as a start wall. */
  predicate StartUnlisted(ct: seq<Corner>, w: WallRef) {
    forall k, i :: 0 <= k < |ct| && 0 <= i < |ct[k].wallStarts| ==> ct[k].wallStarts[i] != w
  }

  /** No corner lists `w` as an end wall. */
  predicate EndUnlisted(ct: seq<Corner>, w: WallRef) {
    forall k, i :: 0 <= k < |ct| && 0 <= i < |ct[k].wallEnds| ==> ct[k].wallEnds[i] != w
  }

  /** Once detached from its start corner, a wall is nobody's start wall. */
  lemma DetachedFromStart(ct: seq<Corner>, wt: seq<Wall>, w: WallRef)
    requires IncidenceOk(ct, wt) && w < |wt|
    ensures StartUnlisted(Detached(ct, wt[w].start, w), w)
  {
    var s := wt[w].start;
    DetachSpec(ct[s], w, w);
  }

  /** Once detached from its end corner, a wall is nobody's end wall. */
  lemma DetachedFromEnd(ct: seq<Corner>, wt: seq<Wall>, w: WallRef)
    requires IncidenceOk(ct, wt) && w < |wt|
    ensures EndUnlisted(Detached(ct, wt[w].end, w), w)
  {
    var e := wt[w].end;
    DetachSpec(ct[e], w, w);
  }

  /** Attaching an unlisted wall to `c` as a start wall and re-pointing its start there
      keeps the invariant. */
  lemma AttachStartKeepsIncidence(ct: seq<Corner>, wt: seq<Wall>, w: WallRef, c: CornerRef)
    requires IncidenceOk(ct, wt) && w < |wt| && c < |ct| && StartUnlisted(ct, w)
    ensures IncidenceOk(ct[c := WithStart(ct[c], w)], wt[w := wt[w].(start := c)])
  {
    var ct2 := ct[c := WithStart(ct[c], w)];
    var wt2 := wt[w := wt[w].(start := c)];
    DistinctSnoc(ct[c].wallStarts, w);
    forall k, i | 0 <= k < |ct2| && 0 <= i < |ct2[k].wallStarts|
      ensures ct2[k].wallStarts[i] < |wt2| && wt2[ct2[k].wallStarts[i]].start == k
    {
      if k != c || i < |ct[c].wallStarts| {
        assert ct2[k].wallStarts[i] == ct[k].wallStarts[i];
      }
    }
  }

  /** Attaching an unlisted wall to `c` as an end wall and re-pointing its end there keeps
      the invariant. */
  lemma AttachEndKeepsIncidence(ct: seq<Corner>, wt: seq<Wall>, w: WallRef, c: CornerRef)
    requires IncidenceOk(ct, wt) && w < |wt| && c < |ct| && EndUnlisted(ct, w)
    ensures IncidenceOk(ct[c := WithEnd(ct[c], w)], wt[w := wt[w].(end := c)])
  {
    var ct2 := ct[c := WithEnd(ct[c], w)];
    var wt2 := wt[w := wt[w].(end := c)];
    DistinctSnoc(ct[c].wallEnds, w);
    forall k, i | 0 <= k < |ct2| && 0 <= i < |ct2[k].wallEnds|
      ensures ct2[k].wallEnds[i] < |wt2| && wt2[ct2[k].wallEnds[i]].end == k
    {
      if k != c || i < |ct[c].wallEnds| {
        assert ct2[k].wallEnds[i] == ct[k].wallEnds[i];
      }
    }
  }

  /** `Wall.setStart(c)`: the wall detached from its old start, appended to `c`'s start
      list, its start re-pointed. The invariant is kept. */
  lemma SetStartKeepsIncidence(ct: seq<Corner>, wt: seq<Wall>, w: WallRef, c: CornerRef)
    requires IncidenceOk(ct, wt) && w < |wt| && c < |ct|
    ensures var ct1 := Detached(ct, wt[w].start, w);
            IncidenceOk(ct1[c := WithStart(ct1[c], w)], wt[w := wt[w].(start := c)])
  {
    DetachKeepsIncidence(ct, wt, wt[w].start, w);
    DetachedFromStart(ct, wt, w);
    AttachStartKeepsIncidence(Detached(ct, wt[w].start, w), wt, w, c);
  }

  /** `Wall.setEnd(c)`, symmetrically. */
  lemma SetEndKeepsIncidence(ct: seq<Corner>, wt: seq<Wall>, w: WallRef, c: CornerRef)
    requires IncidenceOk(ct, wt) && w < |wt| && c < |ct|
    ensures var ct1 := Detached(ct, wt[w].end, w);
            IncidenceOk(ct1[c := WithEnd(ct1[c], w)], wt[w := wt[w].(end := c)])
  {
    DetachKeepsIncidence(ct, wt, wt[w].end, w);
    DetachedFromEnd(ct, wt, w);
    AttachEndKeepsIncidence(Detached(ct, wt[w].end, w), wt, w, c);
  }

  // ---------------------------------------------------------------------------------------
  // Removing walls

  /** The walls of `drop` are gone from every corner's lists, which otherwise keep their
      order; positions and ids are kept, and no corner is undeleted. */
  predicate Stripped(ct0: seq<Corner>, ct: seq<Corner>, drop: set<WallRef>) {
    && |ct| == |ct0|
    && forall k :: 0 <= k < |ct| ==>
      && ct[k].wallStarts == Except(ct0[k].wallStarts, drop)
      && ct[k].wallEnds == Except(ct0[k].wallEnds, drop)
      && ct[k].id == ct0[k].id && ct[k].x == ct0[k].x && ct[k].y == ct0[k].y
      && (ct0[k].deleted ==> ct[k].deleted)
  }

  /** Marking a corner deleted keeps the dropped walls dropped. */
  lemma StrippedMarked(ct0: seq<Corner>, ct: seq<Corner>, drop: set<WallRef>, c: CornerRef)
    requires Stripped(ct0, ct, drop) && c < |ct|
    ensures Stripped(ct0, ct[c := ct[c].(deleted := true)], drop)
  {
  }

  /** The walls of `drop` are marked deleted and nothing else about any wall changes. */
  predicate WallsRemoved(wt0: seq<Wall>, wt: seq<Wall>, drop: set<WallRef>) {
    && |wt| == |wt0|
    && forall v :: 0 <= v < |wt| ==> wt[v] == wt0[v].(deleted := wt0[v].deleted || v in drop)
  }

  /** Nothing dropped yet. */
  lemma StrippedNothing(ct: seq<Corner>)
    ensures Stripped(ct, ct, {})
  {
    forall k | 0 <= k < |ct| ensures Except(ct[k].wallStarts, {}) == ct[k].wallStarts && Except(ct[k].wallEnds, {}) == ct[k].wallEnds {
      ExceptNothing(ct[k].wallStarts);
      ExceptNothing(ct[k].wallEnds);
    }
  }

  /** `Wall.remove` as seen from every corner: since only its own corners list a wall,
      detaching it from them removes it from every list in the table and touches nothing
      else but deleted flags, which are only ever set. */
  lemma RemovedUnlists(ct: seq<Corner>, wt: seq<Wall>, w: WallRef)
    requires IncidenceOk(ct, wt) && w < |wt|
    ensures var ct2 := Detached(Detached(ct, wt[w].start, w), wt[w].end, w);
      && |ct2| == |ct|
      && forall k :: 0 <= k < |ct| ==>
        && ct2[k].wallStarts == Without(ct[k].wallStarts, w)
        && ct2[k].wallEnds == Without(ct[k].wallEnds, w)
        && ct2[k].id == ct[k].id && ct2[k].x == ct[k].x && ct2[k].y == ct[k].y
        && (ct[k].deleted ==> ct2[k].deleted)
  {
    var s, e := wt[w].start, wt[w].end;
    var ct1 := Detached(ct, s, w);
    var ct2 := Detached(ct1, e, w);
    forall k | 0 <= k < |ct|
      ensures ct2[k].wallStarts == Without(ct[k].wallStarts, w)
      ensures ct2[k].wallEnds == Without(ct[k].wallEnds, w)
    {
      if k != s && k != e {
        WithoutAbsent(ct[k].wallStarts, w);
        WithoutAbsent(ct[k].wallEnds, w);
      } else if k == s && k == e {
        WithoutAbsent(ct1[k].wallStarts, w);
        WithoutAbsent(ct1[k].wallEnds, w);
      } else if k == s {
        WithoutAbsent(ct[k].wallEnds, w);
      } else {
        WithoutAbsent(ct[k].wallStarts, w);
      }
    }
  }

  /** Removing one more wall extends the dropped set by it. */
  lemma StrippedStep(ct0: seq<Corner>, ct: seq<Corner>, wt: seq<Wall>, drop: set<WallRef>, w: WallRef)
    requires IncidenceOk(ct, wt) && w < |wt| && Stripped(ct0, ct, drop)
    ensures var ct2 := Detached(Detached(ct, wt[w].start, w), wt[w].end, w);
      && Stripped(ct0, ct2, drop + {w})
      && forall k :: 0 <= k < |ct| ==>
        ct2[k].wallStarts == Without(ct[k].wallStarts, w) && ct2[k].wallEnds == Without(ct[k].wallEnds, w)
  {
    RemovedUnlists(ct, wt, w);
    forall k | 0 <= k < |ct|
      ensures Except(ct0[k].wallStarts, drop + {w}) == Without(ct[k].wallStarts, w)
      ensures Except(ct0[k].wallEnds, drop + {w}) == Without(ct[k].wallEnds, w)
    {
      ExceptWithout(ct0[k].wallStarts, drop, w);
      ExceptWithout(ct0[k].wallEnds, drop, w);
    }
  }

  /** Marking one more wall deleted extends the removed set by it. */
  lemma WallsRemovedStep(wt0: seq<Wall>, wt: seq<Wall>, drop: set<WallRef>, w: WallRef)
    requires WallsRemoved(wt0, wt, drop) && w < |wt|
    ensures WallsRemoved(wt0, wt[w := wt[w].(deleted := true)], drop + {w})
  {
  }

  /** One of a corner's two wall lists. */
  function Listed(c: Corner, fromStarts: bool): seq<WallRef> {
    if fromStarts then c.wallStarts else c.wallEnds
  }

  /** The state of one of `removeAll`'s loops over the list `s` of corner `c` at index `i`,
      after `j` elements of it were passed: the list holds the skipped ones and the rest,
      and the walls visited so far have been removed on top of `drop0`. */
  predicate Sweep(ct0: seq<Corner>, wt0: seq<Wall>, ct: seq<Corner>, wt: seq<Wall>, c: CornerRef,
                  fromStarts: bool, s: seq<WallRef>, i: nat, j: nat, drop0: set<WallRef>, drop: set<WallRef>)
  {
    && c < |ct|
    && j <= |s| && (j == 2 * i || (j == |s| && j + 1 == 2 * i))
    && Listed(ct[c], fromStarts) == Skipped(s[..j]) + s[j..]
    && drop == drop0 + Elems(EveryOther(s[..j]))
    && Stripped(ct0, ct, drop) && WallsRemoved(wt0, wt, drop)
  }

  /** One `wall.remove()` of the loop keeps its state two elements further on. */
  lemma SweepStep(ct0: seq<Corner>, wt0: seq<Wall>, ct: seq<Corner>, wt: seq<Wall>, c: CornerRef,
                  fromStarts: bool, s: seq<WallRef>, i: nat, j: nat, drop0: set<WallRef>, drop: set<WallRef>)
    requires IncidenceOk(ct, wt) && Sweep(ct0, wt0, ct, wt, c, fromStarts, s, i, j, drop0, drop)
    requires i < |Listed(ct[c], fromStarts)|
    ensures Listed(ct[c], fromStarts)[i] < |wt|
    ensures var w := Listed(ct[c], fromStarts)[i];
      Sweep(ct0, wt0, Detached(Detached(ct, wt[w].start, w), wt[w].end, w), wt[w := wt[w].(deleted := true)],
            c, fromStarts, s, i + 1, if 2 * i + 2 <= |s| then 2 * i + 2 else |s|, drop0, drop + {w})
  {
    var list := Listed(ct[c], fromStarts);
    assert j == 2 * i;
    SpliceAt(s, list, i);
    var w := list[i];
    var ct2 := Detached(Detached(ct, wt[w].start, w), wt[w].end, w);
    var j2 := if 2 * i + 2 <= |s| then 2 * i + 2 else |s|;
    StrippedStep(ct0, ct, wt, drop, w);
    assert Listed(ct2[c], fromStarts) == Without(list, w);
    SpliceNext(s, i);
    assert Listed(ct2[c], fromStarts) == Skipped(s[..j2]) + s[j2..];
    ElemsSnoc(EveryOther(s[..j]), w);
    assert drop + {w} == drop0 + Elems(EveryOther(s[..j2]));
    assert j2 <= |s| && (j2 == 2 * (i + 1) || (j2 == |s| && j2 + 1 == 2 * (i + 1)));
    assert Stripped(ct0, ct2, drop + {w});
    WallsRemovedStep(wt0, wt, drop, w);
  }

  /** A loop whose index ran past its list has passed all of `s`. */
  lemma SweepDone(ct0: seq<Corner>, wt0: seq<Wall>, ct: seq<Corner>, wt: seq<Wall>, c: CornerRef,
                  fromStarts: bool, s: seq<WallRef>, i: nat, j: nat, drop0: set<WallRef>, drop: set<WallRef>)
    requires Sweep(ct0, wt0, ct, wt, c, fromStarts, s, i, j, drop0, drop)
    requires i >= |Listed(ct[c], fromStarts)|
    ensures drop == drop0 + Elems(EveryOther(s))
  {
    assert s[..j] == s;
  }

  /** The walls `Corner.removeAll` removes: the forward loop over the start walls reaches
      only every other one, since each `Wall.remove` splices the list it walks; the end
      walls still listed after that are then walked the same way. */
  function RemovedByRemoveAll(c: Corner): set<WallRef> {
    var fromStarts := Elems(EveryOther(c.wallStarts));
    fromStarts + Elems(EveryOther(Except(c.wallEnds, fromStarts)))
  }

  /** Every start wall at an even position is removed; a start wall at an odd position
      that does not also end at the corner survives. */
  lemma RemoveAllReach(c: Corner)
    requires Distinct(c.wallStarts)
    ensures forall k :: 0 <= 2 * k < |c.wallStarts| ==> c.wallStarts[2 * k] in RemovedByRemoveAll(c)
    ensures forall k :: 0 <= 2 * k + 1 < |c.wallStarts| && c.wallStarts[2 * k + 1] !in c.wallEnds ==>
      c.wallStarts[2 * k + 1] !in RemovedByRemoveAll(c)
  {
    var ss := c.wallStarts;
    var fromStarts := Elems(EveryOther(ss));
    var rest := Except(c.wallEnds, fromStarts);
    forall k | 0 <= 2 * k < |ss| ensures ss[2 * k] in fromStarts {
      assert EveryOther(ss)[k] == ss[2 * k];
    }
    forall k | 0 <= 2 * k + 1 < |ss| && ss[2 * k + 1] !in c.wallEnds
      ensures ss[2 * k + 1] !in RemovedByRemoveAll(c)
    {
      var v := ss[2 * k + 1];
      forall m | 0 <= m < |EveryOther(ss)| ensures EveryOther(ss)[m] != v {
        assert EveryOther(ss)[m] == ss[2 * m];
      }
      forall m | 0 <= m < |EveryOther(rest)| ensures EveryOther(rest)[m] in rest {
      }
      ExceptMembers(c.wallEnds, fromStarts, v);
    }
  }

  // ---------------------------------------------------------------------------------------
  // Absorbing a corner's walls

  /** A wall with its start (or its end) re-pointed to `t`. */
  function Repointed(w: Wall, fromStarts: bool, t: CornerRef): Wall {
    if fromStarts then w.(start := t) else w.(end := t)
  }

  /** The walls of `done` are re-pointed to `t`; no other wall changes. */
  predicate AbsorbWalls(wt0: seq<Wall>, wt: seq<Wall>, done: seq<WallRef>, fromStarts: bool, t: CornerRef) {
    && |wt| == |wt0|
    && forall v :: 0 <= v < |wt| ==> wt[v] == if v in done then Repointed(wt0[v], fromStarts, t) else wt0[v]
  }

  /** Positions and ids are kept, only `c` may have become deleted, and no corner but `c`
      and `t` has different lists. */
  predicate AbsorbOthers(ct0: seq<Corner>, ct: seq<Corner>, t: CornerRef, c: CornerRef) {
    && |ct| == |ct0|
    && forall m :: 0 <= m < |ct| ==>
      && ct[m].id == ct0[m].id && ct[m].x == ct0[m].x && ct[m].y == ct0[m].y
      && (m != c ==> ct[m].deleted == ct0[m].deleted)
      && (ct0[m].deleted ==> ct[m].deleted)
      && (m != c && m != t ==> ct[m].wallStarts == ct0[m].wallStarts && ct[m].wallEnds == ct0[m].wallEnds)
  }

  /** The lists of `c` and `t` once the walls of `done`, the tail of `c`'s list from `k`,
      were spliced out of `c`'s lists and appended to `t`'s, last first. */
  predicate AbsorbLists(ct0: seq<Corner>, ct: seq<Corner>, t: CornerRef, c: CornerRef, fromStarts: bool, k: nat)
    requires t < |ct0| && c < |ct0| && |ct| == |ct0| && k <= |Listed(ct0[c], fromStarts)|
  {
    var s0 := Listed(ct0[c], fromStarts);
    var done := s0[k..];
    && Listed(ct[c], fromStarts) == s0[..k] + (if t == c then Reverse(done) else [])
    && Listed(ct[c], !fromStarts) == Except(Listed(ct0[c], !fromStarts), Elems(done))
    && (t != c ==>
          && Listed(ct[t], fromStarts) == Listed(ct0[t], fromStarts) + Reverse(done)
          && Listed(ct[t], !fromStarts) == Listed(ct0[t], !fromStarts))
  }

  /** The state of one of `combineCorners`' backward loops over the start (or end) walls
      of `c`, with the first `k` of them still to go: every wall after them is re-pointed
      to `t`, spliced out of both lists of `c`, and appended, last first, to `t`'s list.
      Only `c` may have become deleted. */
  predicate Absorbing(ct0: seq<Corner>, wt0: seq<Wall>, ct: seq<Corner>, wt: seq<Wall>,
                      t: CornerRef, c: CornerRef, fromStarts: bool, k: nat)
  {
    && t < |ct0| && c < |ct0| && |ct| == |ct0|
    && k <= |Listed(ct0[c], fromStarts)|
    && AbsorbWalls(wt0, wt, Listed(ct0[c], fromStarts)[k..], fromStarts, t)
    && AbsorbOthers(ct0, ct, t, c)
    && AbsorbLists(ct0, ct, t, c, fromStarts, k)
  }

  /** Nothing absorbed yet. */
  lemma AbsorbingStart(ct: seq<Corner>, wt: seq<Wall>, t: CornerRef, c: CornerRef, fromStarts: bool)
    requires t < |ct| && c < |ct|
    ensures Absorbing(ct, wt, ct, wt, t, c, fromStarts, |Listed(ct[c], fromStarts)|)
  {
    var s0 := Listed(ct[c], fromStarts);
    assert s0[|s0|..] == [] && s0[..|s0|] == s0;
    ExceptNothing(Listed(ct[c], !fromStarts));
    assert Elems<WallRef>([]) == {};
  }

  /** `w` appended to the start (or end) list. */
  function Attached(c: Corner, w: WallRef, fromStarts: bool): Corner {
    if fromStarts then WithStart(c, w) else WithEnd(c, w)
  }

  /** The table after `setStart(t)` (or `setEnd(t)`) on wall `w`, whose start (end) is `c`. */
  function Resettled(ct: seq<Corner>, c: CornerRef, t: CornerRef, w: WallRef, fromStarts: bool): seq<Corner>
    requires c < |ct| && t < |ct|
  {
    var ct1 := Detached(ct, c, w);
    ct1[t := Attached(ct1[t], w, fromStarts)]
  }

  /** Re-pointing one more wall extends the re-pointed walls by it. */
  lemma AbsorbWallsStep(wt0: seq<Wall>, wt: seq<Wall>, done: seq<WallRef>, fromStarts: bool, t: CornerRef, w: WallRef)
    requires AbsorbWalls(wt0, wt, done, fromStarts, t) && w < |wt| && w !in done
    ensures AbsorbWalls(wt0, wt[w := Repointed(wt[w], fromStarts, t)], [w] + done, fromStarts, t)
  {
  }

  /** Re-settling one wall from `c` to `t` keeps the other corners as they were. */
  lemma AbsorbOthersStep(ct0: seq<Corner>, ct: seq<Corner>, t: CornerRef, c: CornerRef, w: WallRef, fromStarts: bool)
    requires AbsorbOthers(ct0, ct, t, c) && t < |ct| && c < |ct|
    ensures AbsorbOthers(ct0, Resettled(ct, c, t, w, fromStarts), t, c)
  {
  }

  /** The lists after re-settling `w` from `c` to `t`: `c` lists it nowhere, and `t` has it
      appended to its start (or end) list. */
  lemma ResettledLists(ct: seq<Corner>, c: CornerRef, t: CornerRef, w: WallRef, fromStarts: bool)
    requires c < |ct| && t < |ct|
    ensures var r := Resettled(ct, c, t, w, fromStarts);
      && |r| == |ct|
      && Listed(r[c], !fromStarts) == Without(Listed(ct[c], !fromStarts), w)
      && (t == c ==> Listed(r[c], fromStarts) == Without(Listed(ct[c], fromStarts), w) + [w])
      && (t != c ==>
            && Listed(r[c], fromStarts) == Without(Listed(ct[c], fromStarts), w)
            && Listed(r[t], fromStarts) == Listed(ct[t], fromStarts) + [w]
            && Listed(r[t], !fromStarts) == Listed(ct[t], !fromStarts))
  {
  }

  /** Re-settling the last wall still to go moves it from `c`'s lists to `t`'s. */
  lemma AbsorbListsStep(ct0: seq<Corner>, ct: seq<Corner>, t: CornerRef, c: CornerRef, fromStarts: bool, k: nat)
    requires t < |ct0| && c < |ct0| && |ct| == |ct0| && 0 < k <= |Listed(ct0[c], fromStarts)|
    requires Distinct(Listed(ct0[c], fromStarts))
    requires AbsorbLists(ct0, ct, t, c, fromStarts, k)
    ensures Listed(ct[c], fromStarts)[k - 1] == Listed(ct0[c], fromStarts)[k - 1]
    ensures AbsorbLists(ct0, Resettled(ct, c, t, Listed(ct0[c], fromStarts)[k - 1], fromStarts), t, c, fromStarts, k - 1)
  {
    var s0 := Listed(ct0[c], fromStarts);
    var w := s0[k - 1];
    var done := s0[k..];
    var done2 := s0[k - 1..];
    var list := Listed(ct[c], fromStarts);
    var tail := if t == c then Reverse(done) else [];
    assert done2 == [w] + done;
    assert w !in done;
    ReverseMembers(done, w);
    DistinctBefore(s0, k - 1);
    WithoutLast(s0, k, tail);
    ReverseCons(w, done);
    ExceptWithout(Listed(ct0[c], !fromStarts), Elems(done), w);
    ElemsSnoc(done, w);
    assert Elems(done) + {w} == Elems(done2);
    ResettledLists(ct, c, t, w, fromStarts);
    if t == c {
      assert (s0[..k - 1] + tail) + [w] == s0[..k - 1] + Reverse(done2);
    } else {
      assert Listed(ct0[t], fromStarts) + Reverse(done) + [w] == Listed(ct0[t], fromStarts) + Reverse(done2);
    }
  }

  /** The wall `c` lists at index `i` of its start (or end) list is in the wall table
      and starts (ends) at `c`. */
  lemma ListedWall(ct: seq<Corner>, wt: seq<Wall>, c: CornerRef, fromStarts: bool, i: nat)
    requires IncidenceOk(ct, wt) && c < |ct| && i < |Listed(ct[c], fromStarts)|
    ensures var w := Listed(ct[c], fromStarts)[i];
      w < |wt| && (if fromStarts then wt[w].start else wt[w].end) == c
  {
  }

  /** With `k` walls still to go, the last of them is still at index `k - 1` of `c`'s list. */
  lemma AbsorbingNext(ct0: seq<Corner>, wt0: seq<Wall>, ct: seq<Corner>, wt: seq<Wall>,
                      t: CornerRef, c: CornerRef, fromStarts: bool, k: nat)
    requires Absorbing(ct0, wt0, ct, wt, t, c, fromStarts, k) && 0 < k
    requires Distinct(Listed(ct0[c], fromStarts))
    ensures k - 1 < |Listed(ct[c], fromStarts)|
    ensures Listed(ct[c], fromStarts)[k - 1] == Listed(ct0[c], fromStarts)[k - 1]
  {
    AbsorbListsStep(ct0, ct, t, c, fromStarts, k);
  }

  /** One `setStart(t)` (or `setEnd(t)`) of the loop, on the last wall still to go, which
      `c`'s list held at index `k - 1`. */
  lemma AbsorbingStep(ct0: seq<Corner>, wt0: seq<Wall>, ct: seq<Corner>, wt: seq<Wall>,
                      t: CornerRef, c: CornerRef, fromStarts: bool, k: nat)
    requires Absorbing(ct0, wt0, ct, wt, t, c, fromStarts, k) && 0 < k
    requires Distinct(Listed(ct0[c], fromStarts)) && Listed(ct0[c], fromStarts)[k - 1] < |wt|
    ensures var w := Listed(ct0[c], fromStarts)[k - 1];
      Absorbing(ct0, wt0, Resettled(ct, c, t, w, fromStarts), wt[w := Repointed(wt[w], fromStarts, t)],
                t, c, fromStarts, k - 1)
  {
    var s0 := Listed(ct0[c], fromStarts);
    AbsorbListsStep(ct0, ct, t, c, fromStarts, k);
    var w := s0[k - 1];
    assert s0[k - 1..] == [w] + s0[k..];
    DistinctAfter(s0, k - 1);
    AbsorbWallsStep(wt0, wt, s0[k..], fromStarts, t, w);
    AbsorbOthersStep(ct0, ct, t, c, w, fromStarts);
  }

  /** Both loops of `combineCorners(t, c)`, for `t != c`: the walls `c` listed at its start
      now start at `t`; the walls it listed at its end, less those (which the first loop
      spliced out of both its lists), now end at `t`; both runs were appended to `t`'s
      lists, last first, and `c` lists nothing. Only `c` may have become deleted, and the
      walls may differ in their sides, which `update` rebuilds. */
  predicate Combined(ct0: seq<Corner>, wt0: seq<Wall>, ct: seq<Corner>, wt: seq<Wall>, t: CornerRef, c: CornerRef)
    requires t < |ct0| && c < |ct0|
  {
    var starts := ct0[c].wallStarts;
    var ends := Except(ct0[c].wallEnds, Elems(starts));
    && |wt| == |wt0|
    && (forall v :: 0 <= v < |wt| ==>
          wt[v] == wt0[v].(start := if v in starts then t else wt0[v].start,
                           end := if v in ends then t else wt0[v].end,
                           frontEdge := wt[v].frontEdge, backEdge := wt[v].backEdge, orphan := wt[v].orphan))
    && AbsorbOthers(ct0, ct, t, c)
    && ct[c].wallStarts == [] && ct[c].wallEnds == []
    && ct[t].wallStarts == ct0[t].wallStarts + Reverse(starts)
    && ct[t].wallEnds == ct0[t].wallEnds + Reverse(ends)
  }

  /** The loop over the start walls, then the loop over the end walls left. */
  lemma AbsorbedBoth(ct0: seq<Corner>, wt0: seq<Wall>, ct1: seq<Corner>, wt1: seq<Wall>,
                     ct: seq<Corner>, wt: seq<Wall>, t: CornerRef, c: CornerRef)
    requires t != c
    requires Absorbing(ct0, wt0, ct1, wt1, t, c, true, 0)
    requires Absorbing(ct1, wt1, ct, wt, t, c, false, 0)
    ensures Combined(ct0, wt0, ct, wt, t, c)
  {
    var starts := ct0[c].wallStarts;
    var ends := ct1[c].wallEnds;
    assert starts[0..] == starts && ends[0..] == ends;
    assert ends == Except(ct0[c].wallEnds, Elems(starts));
    ExceptNothing<WallRef>([]);
    forall v | 0 <= v < |wt|
      ensures wt[v] == wt0[v].(start := if v in starts then t else wt0[v].start,
                               end := if v in ends then t else wt0[v].end,
                               frontEdge := wt[v].frontEdge, backEdge := wt[v].backEdge, orphan := wt[v].orphan)
    {
    }
  }
}
