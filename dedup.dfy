/** `FloorPlan.removeDuplicateWalls` (src/components/2d/FloorPlan.ts), stated on the corner
    and wall tables. Each of its two loops walks one of a corner's wall lists from the last
    wall to the first, removes a wall that is zero-length or whose key was already met, and
    otherwise records the key. The key is the id of the wall's END corner in both loops, so
    in the second loop, where every wall ends at the corner itself, all walls share one key
    and only the first one met survives. After each removal the plan's `removeWall` is
    handed whatever the loop index names in the list that just shrank: the next wall kept,
    or nothing. */
module WallDedup {
  import opened Wrappers
  import opened Utils
  import opened Graph
  import opened RoomSearch
  import opened Incidence
  import opened PlanState
  import opened Rooms

  /** What a loop has found after walking the tail of its list: the walls kept (the tail as
      it now stands), the keys recorded, the walls removed and, for each removal, the wall
      the stale index then names. */
  datatype Scan = Scan(kept: seq<WallRef>, seen: set<string>, removed: seq<WallRef>, dropped: seq<Option<WallRef>>)

  /** The key a wall is recorded under: the id of its end corner. */
  function EndKey(ct: seq<Corner>, wt: seq<Wall>, w: WallRef): string
    requires WallCornersOk(wt, |ct|) && w < |wt|
  {
    ct[wt[w].end].id
  }

  /** The zero-length test: the wall's other end is the corner itself. */
  predicate ZeroLength(wt: seq<Wall>, c: CornerRef, w: WallRef, fromStarts: bool)
    requires w < |wt|
  {
    if fromStarts then wt[w].end == c else wt[w].start == c
  }

  /** The removal test of either loop. */
  predicate IsDuplicate(ct: seq<Corner>, wt: seq<Wall>, c: CornerRef, fromStarts: bool, seen: set<string>, w: WallRef)
    requires WallCornersOk(wt, |ct|) && w < |wt|
  {
    ZeroLength(wt, c, w, fromStarts) || (EndKey(ct, wt, w) != "" && EndKey(ct, wt, w) in seen)
  }

  /** One iteration on wall `w`, which sits just before the walls kept so far. */
  function ScanStep(ct: seq<Corner>, wt: seq<Wall>, c: CornerRef, fromStarts: bool, st: Scan, w: WallRef): (r: Scan)
    requires WallCornersOk(wt, |ct|) && w < |wt|
    ensures (r.kept == [w] + st.kept && r.removed == st.removed && r.dropped == st.dropped)
         || (r.kept == st.kept && r.removed == st.removed + [w] && |r.dropped| == |st.dropped| + 1)
    ensures r.removed != st.removed <==> IsDuplicate(ct, wt, c, fromStarts, st.seen, w)
  {
    var key := EndKey(ct, wt, w);
    if IsDuplicate(ct, wt, c, fromStarts, st.seen, w) then
      st.(removed := st.removed + [w], dropped := st.dropped + [if st.kept == [] then None else Some(st.kept[0])])
    else if key != "" then
      st.(kept := [w] + st.kept, seen := st.seen + {key})
    else
      st.(kept := [w] + st.kept)
  }

  /** A loop over the list `s`, walked from its last wall to its first. */
  function ScanFrom(ct: seq<Corner>, wt: seq<Wall>, c: CornerRef, fromStarts: bool, s: seq<WallRef>): (r: Scan)
    requires WallCornersOk(wt, |ct|) && AllBelow(s, |wt|)
    ensures |r.kept| + |r.removed| == |s| && |r.dropped| == |r.removed|
    ensures AllBelow(r.kept, |wt|) && AllBelow(r.removed, |wt|)
    ensures forall x :: x in r.kept ==> x in s
    ensures forall x :: x in r.removed ==> x in s
  {
    if s == [] then Scan([], {}, [], [])
    else
      var rest := ScanFrom(ct, wt, c, fromStarts, s[1..]);
      ScanStep(ct, wt, c, fromStarts, rest, s[0])
  }

  /** The keys of the walls of `ws` whose end corner has an id. */
  function Keys(ct: seq<Corner>, wt: seq<Wall>, ws: seq<WallRef>): set<string>
    requires WallCornersOk(wt, |ct|)
  {
    set x | x in ws && x < |wt| && EndKey(ct, wt, x) != "" :: EndKey(ct, wt, x)
  }

  lemma InKeys(ct: seq<Corner>, wt: seq<Wall>, ws: seq<WallRef>, x: WallRef)
    requires WallCornersOk(wt, |ct|) && x in ws && x < |wt| && EndKey(ct, wt, x) != ""
    ensures EndKey(ct, wt, x) in Keys(ct, wt, ws)
  {
  }

  /** The keys a loop has recorded are exactly the keys of the walls it keeps. */
  lemma {:induction false} ScanRecordsKeptKeys(ct: seq<Corner>, wt: seq<Wall>, c: CornerRef, fromStarts: bool,
                                               s: seq<WallRef>, r: Scan)
    requires WallCornersOk(wt, |ct|) && AllBelow(s, |wt|) && r == ScanFrom(ct, wt, c, fromStarts, s)
    ensures r.seen == Keys(ct, wt, r.kept)
  {
    if s != [] {
      var rest := ScanFrom(ct, wt, c, fromStarts, s[1..]);
      ScanRecordsKeptKeys(ct, wt, c, fromStarts, s[1..], rest);
      var w := s[0];
      if !IsDuplicate(ct, wt, c, fromStarts, rest.seen, w) {
        assert forall x :: x in r.kept <==> x == w || x in rest.kept;
      }
    }
  }

  /** No wall a loop keeps is zero-length. */
  lemma {:induction false} ScanKeepsNoZeroLength(ct: seq<Corner>, wt: seq<Wall>, c: CornerRef, fromStarts: bool,
                                                 s: seq<WallRef>, r: Scan)
    requires WallCornersOk(wt, |ct|) && AllBelow(s, |wt|) && r == ScanFrom(ct, wt, c, fromStarts, s)
    ensures forall i :: 0 <= i < |r.kept| ==> !ZeroLength(wt, c, r.kept[i], fromStarts)
  {
    if s != [] {
      var rest := ScanFrom(ct, wt, c, fromStarts, s[1..]);
      ScanKeepsNoZeroLength(ct, wt, c, fromStarts, s[1..], rest);
      if r.kept != rest.kept {
        assert !IsDuplicate(ct, wt, c, fromStarts, rest.seen, s[0]);
        forall i | 0 < i < |r.kept| ensures r.kept[i] == rest.kept[i - 1] {
        }
      }
    }
  }

  /** No two walls of `ks` share a key. */
  predicate DistinctKeys(ct: seq<Corner>, wt: seq<Wall>, ks: seq<WallRef>)
    requires WallCornersOk(wt, |ct|) && AllBelow(ks, |wt|)
  {
    forall i, j :: 0 <= i < j < |ks| && EndKey(ct, wt, ks[i]) != "" ==> EndKey(ct, wt, ks[i]) != EndKey(ct, wt, ks[j])
  }

  /** A wall whose key is new keeps the keys distinct. */
  lemma DistinctKeysCons(ct: seq<Corner>, wt: seq<Wall>, w: WallRef, ks: seq<WallRef>)
    requires WallCornersOk(wt, |ct|) && AllBelow(ks, |wt|) && w < |wt| && DistinctKeys(ct, wt, ks)
    requires EndKey(ct, wt, w) != "" ==> EndKey(ct, wt, w) !in Keys(ct, wt, ks)
    ensures DistinctKeys(ct, wt, [w] + ks)
  {
    var ks2 := [w] + ks;
    forall i, j | 0 <= i < j < |ks2| && EndKey(ct, wt, ks2[i]) != ""
      ensures EndKey(ct, wt, ks2[i]) != EndKey(ct, wt, ks2[j])
    {
      assert ks2[j] == ks[j - 1];
      if i == 0 {
        if EndKey(ct, wt, ks[j - 1]) != "" {
          InKeys(ct, wt, ks, ks[j - 1]);
        }
      } else {
        assert ks2[i] == ks[i - 1];
      }
    }
  }

  /** No two walls a loop keeps share a key. */
  lemma {:induction false} ScanKeepsDistinctKeys(ct: seq<Corner>, wt: seq<Wall>, c: CornerRef, fromStarts: bool,
                                                 s: seq<WallRef>, r: Scan)
    requires WallCornersOk(wt, |ct|) && AllBelow(s, |wt|) && r == ScanFrom(ct, wt, c, fromStarts, s)
    ensures DistinctKeys(ct, wt, r.kept)
  {
    if s != [] {
      var rest := ScanFrom(ct, wt, c, fromStarts, s[1..]);
      ScanKeepsDistinctKeys(ct, wt, c, fromStarts, s[1..], rest);
      ScanRecordsKeptKeys(ct, wt, c, fromStarts, s[1..], rest);
      if r.kept != rest.kept {
        DistinctKeysCons(ct, wt, s[0], rest.kept);
      }
    }
  }

  /** Every wall a loop removes is zero-length or shares its key with a wall it keeps. */
  lemma {:induction false} ScanRemovesOnlyDuplicates(ct: seq<Corner>, wt: seq<Wall>, c: CornerRef, fromStarts: bool,
                                                     s: seq<WallRef>, r: Scan)
    requires WallCornersOk(wt, |ct|) && AllBelow(s, |wt|) && r == ScanFrom(ct, wt, c, fromStarts, s)
    ensures forall i :: 0 <= i < |r.removed| ==>
      ZeroLength(wt, c, r.removed[i], fromStarts) || EndKey(ct, wt, r.removed[i]) in Keys(ct, wt, r.kept)
  {
    if s != [] {
      var rest := ScanFrom(ct, wt, c, fromStarts, s[1..]);
      ScanRemovesOnlyDuplicates(ct, wt, c, fromStarts, s[1..], rest);
      ScanRecordsKeptKeys(ct, wt, c, fromStarts, s[1..], rest);
      assert Keys(ct, wt, rest.kept) <= Keys(ct, wt, r.kept);
      forall i | 0 <= i < |r.removed|
        ensures ZeroLength(wt, c, r.removed[i], fromStarts) || EndKey(ct, wt, r.removed[i]) in Keys(ct, wt, r.kept)
      {
        if i < |rest.removed| {
          assert r.removed[i] == rest.removed[i];
        }
      }
    }
  }

  // ---------------------------------------------------------------------------------------
  // The two loops of `removeDuplicateWalls`

  /** What the first loop leaves of the corner's end walls: its removals detach them. */
  function EndsAfterStarts(ct: seq<Corner>, wt: seq<Wall>, c: CornerRef): (r: seq<WallRef>)
    requires GraphOk(ct, wt) && c < |ct|
    ensures AllBelow(r, |wt|)
    ensures forall x :: x in r ==> x in ct[c].wallEnds
  {
    var s := ct[c].wallEnds;
    var drop := Elems(StartsScan(ct, wt, c).removed);
    ExceptBelow(s, drop, |wt|);
    Except(s, drop)
  }

  /** The first loop, over the corner's start walls. */
  function StartsScan(ct: seq<Corner>, wt: seq<Wall>, c: CornerRef): Scan
    requires GraphOk(ct, wt) && c < |ct|
  {
    ScanFrom(ct, wt, c, true, ct[c].wallStarts)
  }

  /** The second loop, over what is left of the corner's end walls. */
  function EndsScan(ct: seq<Corner>, wt: seq<Wall>, c: CornerRef): Scan
    requires GraphOk(ct, wt) && c < |ct|
  {
    ScanFrom(ct, wt, c, false, EndsAfterStarts(ct, wt, c))
  }

  /** What survives a filter is in the list, and so in the table. */
  lemma ExceptBelow(s: seq<WallRef>, drop: set<WallRef>, n: nat)
    requires AllBelow(s, n)
    ensures AllBelow(Except(s, drop), n)
    ensures forall x :: x in Except(s, drop) ==> x in s
  {
    forall x | x in Except(s, drop) ensures x in s {
      ExceptMembers(s, drop, x);
    }
  }

  /** Since every wall a corner lists at its end ends at that corner, the second loop keeps
      at most one wall: all of them carry the corner's own id as their key. */
  lemma EndsScanKeepsOne(ct: seq<Corner>, wt: seq<Wall>, c: CornerRef)
    requires IncidenceOk(ct, wt) && c < |ct|
    ensures |EndsScan(ct, wt, c).kept| <= 1
  {
    var s := EndsAfterStarts(ct, wt, c);
    var r := EndsScan(ct, wt, c);
    ScanKeepsDistinctKeys(ct, wt, c, false, s, r);
    if 2 <= |r.kept| {
      EndWallsShareKey(ct, wt, c, r.kept[0], r.kept[1]);
      assert false;
    }
  }

  /** Two walls a corner lists at its end have the same key: the corner's own id. */
  lemma EndWallsShareKey(ct: seq<Corner>, wt: seq<Wall>, c: CornerRef, x: WallRef, y: WallRef)
    requires IncidenceOk(ct, wt) && c < |ct| && x in ct[c].wallEnds && y in ct[c].wallEnds
    ensures x < |wt| && y < |wt| && EndKey(ct, wt, x) == EndKey(ct, wt, y) == ct[c].id != ""
  {
  }

  /** The second loop removes no wall the first one kept: those do not end at the corner,
      and every wall the second loop sees does. */
  lemma EndsSpareKeptStarts(ct: seq<Corner>, wt: seq<Wall>, c: CornerRef)
    requires IncidenceOk(ct, wt) && c < |ct|
    ensures Except(StartsScan(ct, wt, c).kept, Elems(EndsScan(ct, wt, c).removed)) == StartsScan(ct, wt, c).kept
  {
    var kept := StartsScan(ct, wt, c).kept;
    var removed := EndsScan(ct, wt, c).removed;
    ScanKeepsNoZeroLength(ct, wt, c, true, ct[c].wallStarts, StartsScan(ct, wt, c));
    forall x | x in removed ensures wt[x].end == c {
      assert x in ct[c].wallEnds;
    }
    forall x | x in kept ensures x !in Elems(removed) {
      var i :| 0 <= i < |kept| && kept[i] == x;
      assert !ZeroLength(wt, c, kept[i], true);
    }
    ExceptUntouched(kept, Elems(removed));
  }

  // ---------------------------------------------------------------------------------------
  // The state of a loop, step by step

  /** The walls of `drop` are marked deleted; nothing else about any wall changes but its
      sides, which `update` reassigns. */
  predicate WallsMarked(wt0: seq<Wall>, wt: seq<Wall>, drop: set<WallRef>) {
    && |wt| == |wt0|
    && forall v :: 0 <= v < |wt| ==>
      wt[v] == wt0[v].(frontEdge := wt[v].frontEdge, backEdge := wt[v].backEdge, orphan := wt[v].orphan,
                       deleted := wt0[v].deleted || v in drop)
  }

  /** `removeWall` on what the stale index names. */
  function DropStale(ws: seq<WallRef>, o: Option<WallRef>): seq<WallRef> {
    if o.Some? then Without(ws, o.value) else ws
  }

  /** `removeWall` on each stale name in turn. */
  function DropAll(ws: seq<WallRef>, d: seq<Option<WallRef>>): seq<WallRef>
    decreases |d|
  {
    if d == [] then ws else DropStale(DropAll(ws, d[..|d| - 1]), d[|d| - 1])
  }

  /** The first `|s0| - k` iterations of a loop over `s0`, corner `c`'s list in the
      starting tables, have found `st`. */
  predicate DedupScan(ct0: seq<Corner>, wt0: seq<Wall>, c: CornerRef, fromStarts: bool, k: nat, st: Scan)
  {
    && GraphOk(ct0, wt0) && c < |ct0|
    && AllBelow(Listed(ct0[c], fromStarts), |wt0|)
    && k <= |Listed(ct0[c], fromStarts)|
    && st == ScanFrom(ct0, wt0, c, fromStarts, Listed(ct0[c], fromStarts)[k..])
  }

  /** The tables after the walls of `removed` were removed and each stale name of `dropped`
      was handed to `removeWall`. */
  predicate DedupTables(ct0: seq<Corner>, wt0: seq<Wall>, ws0: seq<WallRef>,
                        ct: seq<Corner>, wt: seq<Wall>, ws: seq<WallRef>,
                        removed: seq<WallRef>, dropped: seq<Option<WallRef>>)
  {
    && Stripped(ct0, ct, Elems(removed))
    && WallsMarked(wt0, wt, Elems(removed))
    && ws == DropAll(ws0, dropped)
  }

  /** A loop over corner `c`'s list, started on tables `ct0`, `wt0` and wall list `ws0`,
      with `k` walls left to visit, has found `st`; the walls not yet visited are still in
      front of the walls kept. */
  predicate Deduping(ct0: seq<Corner>, wt0: seq<Wall>, ws0: seq<WallRef>,
                     ct: seq<Corner>, wt: seq<Wall>, ws: seq<WallRef>,
                     c: CornerRef, fromStarts: bool, k: nat, st: Scan)
  {
    && DedupScan(ct0, wt0, c, fromStarts, k, st)
    && DedupTables(ct0, wt0, ws0, ct, wt, ws, st.removed, st.dropped)
    && Listed(ct[c], fromStarts) == Listed(ct0[c], fromStarts)[..k] + st.kept
  }

  lemma DedupStart(ct: seq<Corner>, wt: seq<Wall>, ws: seq<WallRef>, c: CornerRef, fromStarts: bool)
    requires GraphOk(ct, wt) && c < |ct|
    ensures Deduping(ct, wt, ws, ct, wt, ws, c, fromStarts, |Listed(ct[c], fromStarts)|, Scan([], {}, [], []))
  {
    var s := Listed(ct[c], fromStarts);
    assert s[|s|..] == [] && s[..|s|] + [] == s;
    assert Elems<WallRef>([]) == {};
    StrippedNothing(ct);
  }

  /** One more wall visited. */
  lemma ScanNext(ct0: seq<Corner>, wt0: seq<Wall>, c: CornerRef, fromStarts: bool, k: nat, st: Scan)
    requires DedupScan(ct0, wt0, c, fromStarts, k, st) && 0 < k
    ensures DedupScan(ct0, wt0, c, fromStarts, k - 1,
                      ScanStep(ct0, wt0, c, fromStarts, st, Listed(ct0[c], fromStarts)[k - 1]))
  {
    var s0 := Listed(ct0[c], fromStarts);
    assert s0[k - 1..][1..] == s0[k..];
  }

  /** The wall the next iteration visits, and what the loop reads of it now is what it read
      at the start. */
  lemma DedupNext(ct0: seq<Corner>, wt0: seq<Wall>, ws0: seq<WallRef>,
                  ct: seq<Corner>, wt: seq<Wall>, ws: seq<WallRef>,
                  c: CornerRef, fromStarts: bool, k: nat, st: Scan)
    requires Deduping(ct0, wt0, ws0, ct, wt, ws, c, fromStarts, k, st) && 0 < k
    ensures var w := Listed(ct0[c], fromStarts)[k - 1];
      && k - 1 < |Listed(ct[c], fromStarts)| && Listed(ct[c], fromStarts)[k - 1] == w
      && w < |wt| && wt[w].start == wt0[w].start && wt[w].end == wt0[w].end
      && EndKey(ct, wt, w) == EndKey(ct0, wt0, w)
      && ZeroLength(wt, c, w, fromStarts) == ZeroLength(wt0, c, w, fromStarts)
  {
    var s0 := Listed(ct0[c], fromStarts);
    assert Listed(ct[c], fromStarts)[k - 1] == s0[..k][k - 1];
  }

  /** A wall kept changes nothing but what the loop has found. */
  lemma DedupKeep(ct0: seq<Corner>, wt0: seq<Wall>, ws0: seq<WallRef>,
                  ct: seq<Corner>, wt: seq<Wall>, ws: seq<WallRef>,
                  c: CornerRef, fromStarts: bool, k: nat, st: Scan)
    requires Deduping(ct0, wt0, ws0, ct, wt, ws, c, fromStarts, k, st) && 0 < k
    requires !IsDuplicate(ct0, wt0, c, fromStarts, st.seen, Listed(ct0[c], fromStarts)[k - 1])
    ensures Deduping(ct0, wt0, ws0, ct, wt, ws, c, fromStarts, k - 1,
                     ScanStep(ct0, wt0, c, fromStarts, st, Listed(ct0[c], fromStarts)[k - 1]))
  {
    var s0 := Listed(ct0[c], fromStarts);
    ScanNext(ct0, wt0, c, fromStarts, k, st);
    var st2 := ScanStep(ct0, wt0, c, fromStarts, st, s0[k - 1]);
    assert st2.removed == st.removed && st2.dropped == st.dropped && st2.kept == [s0[k - 1]] + st.kept;
    PrefixCons(s0, k, st.kept);
  }

  /** `Wall.remove` on one more wall, then `removeWall` on any stale name. */
  lemma TablesRemove(ct0: seq<Corner>, wt0: seq<Wall>, ws0: seq<WallRef>,
                     ct: seq<Corner>, wt: seq<Wall>, ws: seq<WallRef>,
                     removed: seq<WallRef>, dropped: seq<Option<WallRef>>, w: WallRef, o: Option<WallRef>)
    requires IncidenceOk(ct, wt) && w < |wt| && DedupTables(ct0, wt0, ws0, ct, wt, ws, removed, dropped)
    ensures var ct2 := Detached(Detached(ct, wt[w].start, w), wt[w].end, w);
      && DedupTables(ct0, wt0, ws0, ct2, wt[w := wt[w].(deleted := true)], DropStale(ws, o), removed + [w], dropped + [o])
      && forall m :: 0 <= m < |ct| ==>
        ct2[m].wallStarts == Without(ct[m].wallStarts, w) && ct2[m].wallEnds == Without(ct[m].wallEnds, w)
  {
    StrippedStep(ct0, ct, wt, Elems(removed), w);
    ElemsSnoc(removed, w);
    assert (dropped + [o])[..|dropped|] == dropped;
  }

  /** A wall removed by `Wall.remove`, which detaches it from its two corners and marks it,
      and `removeWall` handed what the stale index names: the first wall kept, if any. */
  lemma DedupDetach(ct0: seq<Corner>, wt0: seq<Wall>, ws0: seq<WallRef>,
                    ct: seq<Corner>, wt: seq<Wall>, ws: seq<WallRef>,
                    c: CornerRef, fromStarts: bool, k: nat, st: Scan, w: WallRef, stale: Option<WallRef>)
    requires IncidenceOk(ct, wt) && Deduping(ct0, wt0, ws0, ct, wt, ws, c, fromStarts, k, st) && 0 < k
    requires w == Listed(ct0[c], fromStarts)[k - 1] && IsDuplicate(ct0, wt0, c, fromStarts, st.seen, w)
    requires w < |wt| && wt[w].start < |ct| && wt[w].end < |ct|
    requires var ct2 := Detached(Detached(ct, wt[w].start, w), wt[w].end, w);
      stale == if k - 1 < |Listed(ct2[c], fromStarts)| then Some(Listed(ct2[c], fromStarts)[k - 1]) else None
    ensures Deduping(ct0, wt0, ws0, Detached(Detached(ct, wt[w].start, w), wt[w].end, w), wt[w := wt[w].(deleted := true)],
                     DropStale(ws, stale), c, fromStarts, k - 1, ScanStep(ct0, wt0, c, fromStarts, st, w))
  {
    var s0 := Listed(ct0[c], fromStarts);
    ScanNext(ct0, wt0, c, fromStarts, k, st);
    var st2 := ScanStep(ct0, wt0, c, fromStarts, st, w);
    var o := if st.kept == [] then None else Some(st.kept[0]);
    assert st2.removed == st.removed + [w] && st2.dropped == st.dropped + [o] && st2.kept == st.kept;
    TablesRemove(ct0, wt0, ws0, ct, wt, ws, st.removed, st.dropped, w, o);
    PrefixCons(s0, k, st.kept);
    WithoutSpliced(s0, k, st.kept);
  }

  /** `update` reassigning the sides of walls keeps the loop's state. */
  lemma DedupSides(ct0: seq<Corner>, wt0: seq<Wall>, ws0: seq<WallRef>,
                   ct: seq<Corner>, wt: seq<Wall>, wt2: seq<Wall>, ws: seq<WallRef>,
                   c: CornerRef, fromStarts: bool, k: nat, st: Scan)
    requires Deduping(ct0, wt0, ws0, ct, wt, ws, c, fromStarts, k, st) && SameButSides(wt, wt2)
    ensures Deduping(ct0, wt0, ws0, ct, wt2, ws, c, fromStarts, k, st)
  {
  }

  /** A wall removed: `Wall.remove`, then `removeWall` on the stale name, whose `update`
      reassigns the sides of walls. */
  lemma DedupRemove(ct0: seq<Corner>, wt0: seq<Wall>, ws0: seq<WallRef>,
                    ct: seq<Corner>, wt: seq<Wall>, ws: seq<WallRef>,
                    ct3: seq<Corner>, wt3: seq<Wall>, ws3: seq<WallRef>,
                    c: CornerRef, fromStarts: bool, k: nat, st: Scan, w: WallRef, stale: Option<WallRef>)
    requires IncidenceOk(ct, wt) && Deduping(ct0, wt0, ws0, ct, wt, ws, c, fromStarts, k, st) && 0 < k
    requires w == Listed(ct0[c], fromStarts)[k - 1] && IsDuplicate(ct0, wt0, c, fromStarts, st.seen, w)
    requires w < |wt| && wt[w].start < |ct| && wt[w].end < |ct|
    requires ct3 == Detached(Detached(ct, wt[w].start, w), wt[w].end, w)
    requires stale == if k - 1 < |Listed(ct3[c], fromStarts)| then Some(Listed(ct3[c], fromStarts)[k - 1]) else None
    requires ws3 == if stale.Some? then Without(ws, stale.value) else ws
    requires SameButSides(wt[w := wt[w].(deleted := true)], wt3)
    ensures Deduping(ct0, wt0, ws0, ct3, wt3, ws3, c, fromStarts, k - 1, ScanStep(ct0, wt0, c, fromStarts, st, w))
  {
    DedupDetach(ct0, wt0, ws0, ct, wt, ws, c, fromStarts, k, st, w, stale);
    DedupSides(ct0, wt0, ws0, ct3, wt[w := wt[w].(deleted := true)], wt3, ws3, c, fromStarts, k - 1,
               ScanStep(ct0, wt0, c, fromStarts, st, w));
  }

  // ---------------------------------------------------------------------------------------
  // Both loops together

  /** Handing two runs of stale names to `removeWall` is handing their concatenation. */
  lemma {:induction false} DropAllAppend(ws: seq<WallRef>, a: seq<Option<WallRef>>, b: seq<Option<WallRef>>)
    ensures DropAll(DropAll(ws, a), b) == DropAll(ws, a + b)
    decreases |b|
  {
    if b == [] {
      assert a + b == a;
    } else {
      DropAllAppend(ws, a, b[..|b| - 1]);
      assert (a + b)[..|a + b| - 1] == a + b[..|b| - 1];
    }
  }

  /** A loop only reads which corners the walls join and the ids of those corners, so it
      finds the same on tables that agree on those. */
  lemma {:induction false} ScanSameKeys(ct: seq<Corner>, wt: seq<Wall>, ct2: seq<Corner>, wt2: seq<Wall>,
                                        c: CornerRef, fromStarts: bool, s: seq<WallRef>)
    requires WallCornersOk(wt, |ct|) && AllBelow(s, |wt|)
    requires |ct2| == |ct| && |wt2| == |wt|
    requires forall m :: 0 <= m < |ct| ==> ct2[m].id == ct[m].id
    requires forall v :: 0 <= v < |wt| ==> wt2[v].start == wt[v].start && wt2[v].end == wt[v].end
    ensures WallCornersOk(wt2, |ct2|)
    ensures ScanFrom(ct2, wt2, c, fromStarts, s) == ScanFrom(ct, wt, c, fromStarts, s)
  {
    if s != [] {
      ScanSameKeys(ct, wt, ct2, wt2, c, fromStarts, s[1..]);
      assert EndKey(ct2, wt2, s[0]) == EndKey(ct, wt, s[0]);
    }
  }

  /** `removeDuplicateWalls(c)` on tables `ct0`, `wt0` and wall list `ws0`: what both loops
      removed is gone from every corner's lists and marked deleted, the stale names were
      handed to `removeWall` in order, and corner `c` keeps what the two loops kept. */
  predicate DuplicatesRemoved(ct0: seq<Corner>, wt0: seq<Wall>, ws0: seq<WallRef>,
                              ct: seq<Corner>, wt: seq<Wall>, ws: seq<WallRef>, c: CornerRef)
    requires GraphOk(ct0, wt0) && c < |ct0|
  {
    var starts := StartsScan(ct0, wt0, c);
    var ends := EndsScan(ct0, wt0, c);
    && DedupTables(ct0, wt0, ws0, ct, wt, ws, starts.removed + ends.removed, starts.dropped + ends.dropped)
    && ct[c].wallStarts == starts.kept
    && ct[c].wallEnds == ends.kept
  }

  /** Two strippings in a row strip the union. */
  lemma StrippedCompose(ct0: seq<Corner>, ct1: seq<Corner>, ct: seq<Corner>, a: seq<WallRef>, b: seq<WallRef>)
    requires Stripped(ct0, ct1, Elems(a)) && Stripped(ct1, ct, Elems(b))
    ensures Stripped(ct0, ct, Elems(a + b))
  {
    assert Elems(a + b) == Elems(a) + Elems(b);
    forall k | 0 <= k < |ct|
      ensures ct[k].wallStarts == Except(ct0[k].wallStarts, Elems(a + b))
      ensures ct[k].wallEnds == Except(ct0[k].wallEnds, Elems(a + b))
    {
      ExceptUnion(ct0[k].wallStarts, Elems(a), Elems(b));
      ExceptUnion(ct0[k].wallEnds, Elems(a), Elems(b));
    }
  }

  /** Two markings in a row mark the union. */
  lemma MarkedCompose(wt0: seq<Wall>, wt1: seq<Wall>, wt: seq<Wall>, a: seq<WallRef>, b: seq<WallRef>)
    requires WallsMarked(wt0, wt1, Elems(a)) && WallsMarked(wt1, wt, Elems(b))
    ensures WallsMarked(wt0, wt, Elems(a + b))
  {
    assert Elems(a + b) == Elems(a) + Elems(b);
  }

  /** The second loop, started on the tables the first one left, scans what the first left
      of the end walls with the keys it started with: it finds `EndsScan`. */
  lemma SecondScanIsEndsScan(ct0: seq<Corner>, wt0: seq<Wall>, ws0: seq<WallRef>,
                             ct1: seq<Corner>, wt1: seq<Wall>, ws1: seq<WallRef>, c: CornerRef)
    requires GraphOk(ct0, wt0) && c < |ct0| && GraphOk(ct1, wt1)
    requires Deduping(ct0, wt0, ws0, ct1, wt1, ws1, c, true, 0, StartsScan(ct0, wt0, c))
    ensures ScanFrom(ct1, wt1, c, false, ct1[c].wallEnds) == EndsScan(ct0, wt0, c)
  {
    var s := EndsAfterStarts(ct0, wt0, c);
    assert ct1[c].wallEnds == s;
    ScanSameKeys(ct0, wt0, ct1, wt1, c, false, s);
  }

  /** The two loops of `removeDuplicateWalls` one after the other. */
  lemma {:induction false} DedupBoth(ct0: seq<Corner>, wt0: seq<Wall>, ws0: seq<WallRef>,
                                     ct1: seq<Corner>, wt1: seq<Wall>, ws1: seq<WallRef>,
                                     ct: seq<Corner>, wt: seq<Wall>, ws: seq<WallRef>, c: CornerRef)
    requires IncidenceOk(ct0, wt0) && c < |ct0| && GraphOk(ct1, wt1)
    requires Deduping(ct0, wt0, ws0, ct1, wt1, ws1, c, true, 0, StartsScan(ct0, wt0, c))
    requires Deduping(ct1, wt1, ws1, ct, wt, ws, c, false, 0, ScanFrom(ct1, wt1, c, false, ct1[c].wallEnds))
    ensures DuplicatesRemoved(ct0, wt0, ws0, ct, wt, ws, c)
  {
    var starts := StartsScan(ct0, wt0, c);
    SecondScanIsEndsScan(ct0, wt0, ws0, ct1, wt1, ws1, c);
    var ends := EndsScan(ct0, wt0, c);
    StrippedCompose(ct0, ct1, ct, starts.removed, ends.removed);
    MarkedCompose(wt0, wt1, wt, starts.removed, ends.removed);
    DropAllAppend(ws0, starts.dropped, ends.dropped);
    assert ct1[c].wallStarts == starts.kept;
    EndsSpareKeptStarts(ct0, wt0, c);
    assert ct[c].wallEnds == ends.kept;
  }

  /** What `removeDuplicateWalls(c)` leaves at the corner: no start wall that is
      zero-length, no two start walls whose end corners share an id, and at most one end
      wall. */
  lemma DuplicatesGone(ct0: seq<Corner>, wt0: seq<Wall>, ws0: seq<WallRef>,
                       ct: seq<Corner>, wt: seq<Wall>, ws: seq<WallRef>, c: CornerRef)
    requires IncidenceOk(ct0, wt0) && c < |ct0| && DuplicatesRemoved(ct0, wt0, ws0, ct, wt, ws, c)
    ensures WallCornersOk(wt, |ct|) && AllBelow(ct[c].wallStarts, |wt|)
    ensures forall i :: 0 <= i < |ct[c].wallStarts| ==> wt[ct[c].wallStarts[i]].end != c
    ensures DistinctKeys(ct, wt, ct[c].wallStarts)
    ensures |ct[c].wallEnds| <= 1
  {
    var starts := StartsScan(ct0, wt0, c);
    ScanKeepsNoZeroLength(ct0, wt0, c, true, ct0[c].wallStarts, starts);
    ScanKeepsDistinctKeys(ct0, wt0, c, true, ct0[c].wallStarts, starts);
    EndsScanKeepsOne(ct0, wt0, c);
    assert forall v :: 0 <= v < |wt| ==> wt[v].end == wt0[v].end;
    assert forall v :: 0 <= v < |wt| ==> EndKey(ct, wt, v) == EndKey(ct0, wt0, v);
  }

  /** `removeAll` then `removeDuplicateWalls` on a corner: no corner moves and no wall
      changes its corners; on a corner that lists no wall, `removeDuplicateWalls` finds
      nothing to remove. */
  lemma RetiredCorner(ct0: seq<Corner>, wt0: seq<Wall>, drop: set<WallRef>,
                      ct1: seq<Corner>, wt1: seq<Wall>, ws1: seq<WallRef>,
                      ct: seq<Corner>, wt: seq<Wall>, ws: seq<WallRef>, c: CornerRef)
    requires Stripped(ct0, ct1, drop) && WallsRemoved(wt0, wt1, drop)
    requires GraphOk(ct1, wt1) && c < |ct1| && DuplicatesRemoved(ct1, wt1, ws1, ct, wt, ws, c)
    ensures |ct| == |ct0| && forall m :: 0 <= m < |ct| ==> ct[m].x == ct0[m].x && ct[m].y == ct0[m].y
    ensures SameEnds(wt0, wt)
    ensures ct1[c].wallStarts == [] && ct1[c].wallEnds == [] ==>
      StartsScan(ct1, wt1, c).removed + EndsScan(ct1, wt1, c).removed == []
  {
    if ct1[c].wallStarts == [] && ct1[c].wallEnds == [] {
      assert EndsAfterStarts(ct1, wt1, c) == [];
    }
    forall v | 0 <= v < |wt| ensures wt[v].start == wt0[v].start && wt[v].end == wt0[v].end {
      assert wt1[v].start == wt0[v].start && wt1[v].end == wt0[v].end;
    }
  }
}
