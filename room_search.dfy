/** Room detection of `FloorPlan.findRooms` (src/components/2d/FloorPlan.ts): for every
    corner and every adjacent corner, a depth-first search with an explicit stack for the
    tightest cycle through the two; then rotation de-duplication; then the orientation
    filter. The search only reads the corner and wall tables. */
module RoomSearch {
  import opened Wrappers
  import opened Utils
  import opened Utils2D
  import opened Graph

  /** The part of the tables the search reads is well formed. */
  predicate GraphOk(ct: seq<Corner>, wt: seq<Wall>) {
    CornerListsOk(ct, |wt|) && WallCornersOk(wt, |ct|)
  }

  /** Every corner has an id: `Corner.createCorner` falls back to a fresh guid. */
  predicate IdsNonEmpty(ct: seq<Corner>) {
    forall c :: 0 <= c < |ct| ==> ct[c].id != ""
  }

  /** Every corner a corner is adjacent to is in the table. */
  lemma AdjacentInTable(ct: seq<Corner>, wt: seq<Wall>, c: CornerRef)
    requires GraphOk(ct, wt) && c < |ct|
    ensures CornerOk(ct[c], |wt|)
    ensures AllBelow(AdjacentCorners(wt, ct[c]), |ct|)
  {
  }

  // ---------------------------------------------------------------------------------------
  // Walks and cycles

  /** Each corner of `path` is adjacent to the one before it. */
  predicate IsWalk(ct: seq<Corner>, wt: seq<Wall>, path: seq<CornerRef>)
    requires GraphOk(ct, wt) && AllBelow(path, |ct|)
  {
    forall k :: 0 <= k < |path| - 1 ==> Linked(ct, wt, path[k], path[k + 1])
  }

  /** Whether a wall joins corner `a` to corner `b`, as `adjacentCorners` reports. */
  predicate Linked(ct: seq<Corner>, wt: seq<Wall>, a: CornerRef, b: CornerRef)
    requires GraphOk(ct, wt) && a < |ct|
  {
    b in AdjacentCorners(wt, ct[a])
  }

  /** A cycle of the plan graph: at least two distinct corners, each adjacent to the next
      and the last adjacent to the first. */
  predicate IsCycle(ct: seq<Corner>, wt: seq<Wall>, loop: seq<CornerRef>)
    requires GraphOk(ct, wt) && AllBelow(loop, |ct|)
  {
    |loop| >= 2 && Distinct(loop) && IsWalk(ct, wt, loop + [loop[0]])
  }

  /** A list of distinct corner references is no longer than the corner table. */
  lemma {:induction false} DistinctBound(s: seq<CornerRef>, n: nat)
    requires Distinct(s) && AllBelow(s, n)
    ensures |s| <= n
    decreases |s|
  {
    if s != [] {
      var m := s[|s| - 1];
      var t := s[..|s| - 1];
      var t' := seq(|t|, i requires 0 <= i < |t| => if t[i] == n - 1 then m else t[i]);
      assert Distinct(t') by {
        forall i, j | 0 <= i < j < |t'| ensures t'[i] != t'[j] {
          assert s[i] == t[i] && s[j] == t[j];
        }
      }
      assert AllBelow(t', n - 1) by {
        forall i | 0 <= i < |t'| ensures t'[i] < n - 1 {
          assert s[i] == t[i];
          if t[i] != n - 1 {
            assert s[i] != m;
          }
        }
      }
      DistinctBound(t', n - 1);
    }
  }

  // ---------------------------------------------------------------------------------------
  // Stable sort by angle, largest first

  /** `_calculateTheta(previous, current, next)`: the angle at `current` from the edge back
      to `previous` round to the edge on to `next`. */
  function CalculateTheta(angle2pi: Angle, previous: Point, current: Point, next: Point): real {
    angle2pi(previous.x - current.x, previous.y - current.y, next.x - current.x, next.y - current.y)
  }

  predicate SortedDesc(s: seq<CornerRef>, key: CornerRef -> real) {
    forall i, j :: 0 <= i < j < |s| ==> key(s[i]) >= key(s[j])
  }

  /** Inserts `x` before the first element whose key is not larger. */
  function InsertDesc(x: CornerRef, s: seq<CornerRef>, key: CornerRef -> real): (r: seq<CornerRef>)
    ensures multiset(r) == multiset(s) + multiset{x}
  {
    if s == [] || key(x) >= key(s[0]) then [x] + s
    else
      assert s == [s[0]] + s[1..];
      [s[0]] + InsertDesc(x, s[1..], key)
  }

  lemma {:induction false} InsertDescSorted(x: CornerRef, s: seq<CornerRef>, key: CornerRef -> real)
    requires SortedDesc(s, key)
    ensures SortedDesc(InsertDesc(x, s, key), key)
  {
    if s != [] && key(x) < key(s[0]) {
      var rest := InsertDesc(x, s[1..], key);
      InsertDescSorted(x, s[1..], key);
      assert s == [s[0]] + s[1..];
      forall i | 0 <= i < |rest| ensures key(rest[i]) <= key(s[0]) {
        assert rest[i] in multiset(rest);
        assert rest[i] == x || rest[i] in multiset(s[1..]);
        if rest[i] != x {
          var k :| 0 <= k < |s[1..]| && s[1..][k] == rest[i];
          assert s[k + 1] == rest[i];
        }
      }
    }
  }

  /** `addToStack.sort((a, b) => theta(b) - theta(a))`: a stable sort, largest angle first. */
  function SortDesc(s: seq<CornerRef>, key: CornerRef -> real): (r: seq<CornerRef>)
    ensures multiset(r) == multiset(s)
  {
    if s == [] then [] else
      assert s == [s[0]] + s[1..];
      InsertDesc(s[0], SortDesc(s[1..], key), key)
  }

  /** The sort returns the same corners, by decreasing angle. */
  lemma {:induction false} SortDescSorted(s: seq<CornerRef>, key: CornerRef -> real)
    ensures SortedDesc(SortDesc(s, key), key)
    ensures multiset(SortDesc(s, key)) == multiset(s)
  {
    if s != [] {
      SortDescSorted(s[1..], key);
      InsertDescSorted(s[0], SortDesc(s[1..], key), key);
    }
  }

  /** The corner pushed last, and therefore popped first, has the smallest angle. */
  lemma SmallestThetaPoppedFirst(s: seq<CornerRef>, key: CornerRef -> real)
    requires s != []
    ensures var r := SortDesc(s, key);
      |r| == |s| && forall x <- s :: key(r[|r| - 1]) <= key(x)
  {
    var r := SortDesc(s, key);
    SortDescSorted(s, key);
    assert |r| == |multiset(r)| == |multiset(s)| == |s|;
    forall x <- s ensures key(r[|r| - 1]) <= key(x) {
      assert x in multiset(r);
      var i :| 0 <= i < |r| && r[i] == x;
    }
  }

  // ---------------------------------------------------------------------------------------
  // Rotations and room keys

  /** `b` is `a` shifted left by some number of places. */
  predicate IsRotationOf<T(==)>(a: seq<T>, b: seq<T>) {
    exists j :: 0 <= j <= |a| && Rotate(a, j) == b
  }

  /** Element `i` of a rotation by `j <= n`. */
  lemma RotateIndex<T>(a: seq<T>, j: nat, i: nat)
    requires j <= |a| && i < |a|
    ensures Wrap(i + j, |a|) < |a|
    ensures Rotate(a, j)[i] == a[Wrap(i + j, |a|)]
  {
  }

  /** Rotating by `m` and then by `j` is rotating by `m + j` modulo the length. */
  lemma RotateCompose<T>(a: seq<T>, m: nat, j: nat)
    requires m <= |a| && j <= |a|
    ensures Wrap(m + j, |a|) <= |a|
    ensures Rotate(Rotate(a, m), j) == Rotate(a, Wrap(m + j, |a|))
  {
    var n := |a|;
    var k := Wrap(m + j, n);
    var r := Rotate(Rotate(a, m), j);
    forall i | 0 <= i < n ensures r[i] == Rotate(a, k)[i] {
      RotateIndex(Rotate(a, m), j, i);
      RotateIndex(a, m, Wrap(i + j, n));
      if k < n {
        RotateIndex(a, k, i);
      } else {
        assert Rotate(a, k)[i] == a[i];
      }
    }
  }

  /** Being a rotation of each other is symmetric. */
  lemma RotationSymmetric<T>(a: seq<T>, b: seq<T>)
    requires IsRotationOf(a, b)
    ensures IsRotationOf(b, a)
  {
    var j :| 0 <= j <= |a| && Rotate(a, j) == b;
    var n := |a|;
    RotateCompose(a, j, n - j);
    assert Rotate(a, 0) == a && Rotate(a, n) == a;
    assert Rotate(b, n - j) == a;
  }

  /** `Array.join(sep)`. */
  function Join(parts: seq<string>, sep: string): string {
    if parts == [] then ""
    else if |parts| == 1 then parts[0]
    else parts[0] + sep + Join(parts[1..], sep)
  }

  /** The ids of a list of corners, in order. */
  function Ids(ct: seq<Corner>, room: seq<CornerRef>): (r: seq<string>)
    requires AllBelow(room, |ct|)
    ensures |r| == |room|
    ensures forall i :: 0 <= i < |room| ==> r[i] == ct[room[i]].id
  {
    if room == [] then [] else [ct[room[0]].id] + Ids(ct, room[1..])
  }

  /** The lookup key of a corner list: its ids joined with '-'. */
  function RoomKey(ct: seq<Corner>, room: seq<CornerRef>): string
    requires AllBelow(room, |ct|)
  {
    Join(Ids(ct, room), "-")
  }

  /** A non-empty list whose first id is non-empty has a non-empty key. */
  lemma RoomKeyNonEmpty(ct: seq<Corner>, room: seq<CornerRef>)
    requires AllBelow(room, |ct|) && room != [] && ct[room[0]].id != ""
    ensures RoomKey(ct, room) != ""
  {
    var parts := Ids(ct, room);
    assert parts[0] != "";
    if |parts| > 1 {
      assert |Join(parts, "-")| >= |parts[0]|;
    }
  }

  lemma RotateBelow(room: seq<CornerRef>, j: nat, n: nat)
    requires AllBelow(room, n) && j <= |room|
    ensures AllBelow(Rotate(room, j), n)
  {
  }

  // ---------------------------------------------------------------------------------------
  // The search's termination measure

  function Pow(b: nat, e: nat): nat {
    if e == 0 then 1 else b * Pow(b, e - 1)
  }

  lemma PowPositive(b: nat, e: nat)
    requires b >= 1
    ensures Pow(b, e) >= 1
  {
    if e > 0 {
      PowPositive(b, e - 1);
    }
  }

  lemma {:induction false} PowMonotone(b: nat, e1: nat, e2: nat)
    requires b >= 1 && e1 <= e2
    ensures Pow(b, e1) <= Pow(b, e2)
  {
    if e1 < e2 {
      PowMonotone(b, e1, e2 - 1);
      PowPositive(b, e2 - 1);
      assert Pow(b, e2) == b * Pow(b, e2 - 1) >= Pow(b, e2 - 1);
    }
  }

  /** The weight of a stack of ranks: `b` to the power of each rank, summed. */
  function Pot(ranks: seq<nat>, b: nat): nat {
    if ranks == [] then 0 else Pot(ranks[..|ranks| - 1], b) + Pow(b, ranks[|ranks| - 1])
  }

  lemma {:induction false} PotAppend(r1: seq<nat>, r2: seq<nat>, b: nat)
    ensures Pot(r1 + r2, b) == Pot(r1, b) + Pot(r2, b)
  {
    if r2 != [] {
      assert (r1 + r2)[..|r1 + r2| - 1] == r1 + r2[..|r2| - 1];
      PotAppend(r1, r2[..|r2| - 1], b);
    } else {
      assert r1 + r2 == r1;
    }
  }

  /** Up to `d` ranks below `r` weigh less than one rank `r` when `b = d + 1`. */
  lemma {:induction false} PotBelow(ranks: seq<nat>, r: nat, d: nat)
    requires r >= 1 && |ranks| <= d
    requires forall i :: 0 <= i < |ranks| ==> ranks[i] < r
    ensures Pot(ranks, d + 1) < Pow(d + 1, r)
  {
    PotAtMost(ranks, r - 1, d + 1);
    PowPositive(d + 1, r - 1);
    assert |ranks| * Pow(d + 1, r - 1) <= d * Pow(d + 1, r - 1) by {
      MulMonotone(|ranks|, d, Pow(d + 1, r - 1));
    }
  }

  lemma MulMonotone(a: nat, b: nat, c: nat)
    requires a <= b
    ensures a * c <= b * c
  {
  }

  lemma {:induction false} PotAtMost(ranks: seq<nat>, cap: nat, b: nat)
    requires b >= 1
    requires forall i :: 0 <= i < |ranks| ==> ranks[i] <= cap
    ensures Pot(ranks, b) <= |ranks| * Pow(b, cap)
  {
    if ranks != [] {
      var n := |ranks|;
      var p := Pow(b, cap);
      PotAtMost(ranks[..n - 1], cap, b);
      PowMonotone(b, ranks[n - 1], cap);
      assert Pot(ranks, b) <= (n - 1) * p + p;
      assert (n - 1) * p + p == n * p;
    }
  }

  /** The most walls any corner has. */
  function MaxDegree(ct: seq<Corner>): (d: nat)
    ensures forall c :: 0 <= c < |ct| ==> |ct[c].wallStarts| + |ct[c].wallEnds| <= d
  {
    if ct == [] then 0
    else
      var rest := MaxDegree(ct[1..]);
      var here := |ct[0].wallStarts| + |ct[0].wallEnds|;
      assert forall c :: 1 <= c < |ct| ==> ct[c] == ct[1..][c - 1];
      if here > rest then here else rest
  }

  // ---------------------------------------------------------------------------------------
  // _findTightestCycle

  /** A pending search state: the corner to visit and the path that led to it. */
  datatype Item = Item(corner: CornerRef, previousCorners: seq<CornerRef>)

  /** Every id in the corner table. */
  function AllIds(ct: seq<Corner>): set<string> {
    set c | 0 <= c < |ct| :: ct[c].id
  }

  /** What every pending item satisfies: its path starts with the two given corners, walks
      along walls to the item's corner, has only visited ids and, unless the two given
      corners are one, is free of repeats and does not hold the item's corner except when
      that corner closes the cycle. */
  predicate ItemOk(ct: seq<Corner>, wt: seq<Wall>, first: CornerRef, second: CornerRef, it: Item, visited: set<string>)
    requires GraphOk(ct, wt)
  {
    && ItemShape(ct, first, second, it)
    && IsWalk(ct, wt, it.previousCorners + [it.corner])
    && PathVisited(ct, it.previousCorners, visited)
    && (first != second ==> ItemSimple(first, it))
  }

  /** The item's path starts with the two given corners and stays in the table. */
  predicate ItemShape(ct: seq<Corner>, first: CornerRef, second: CornerRef, it: Item) {
    && it.corner < |ct| && AllBelow(it.previousCorners, |ct|)
    && |it.previousCorners| >= 1 && it.previousCorners[0] == first
    && (|it.previousCorners| == 1 ==> it.corner == second)
    && (|it.previousCorners| >= 2 ==> it.previousCorners[1] == second)
  }

  /** Every corner on the path has a visited id. */
  predicate PathVisited(ct: seq<Corner>, path: seq<CornerRef>, visited: set<string>)
    requires AllBelow(path, |ct|)
  {
    forall k :: 0 <= k < |path| ==> ct[path[k]].id in visited
  }

  /** The path has no repeats and does not hold the item's corner unless it is the start. */
  predicate ItemSimple(first: CornerRef, it: Item) {
    Distinct(it.previousCorners) && (it.corner == first || it.corner !in it.previousCorners)
  }


  /** The rank of a pending item bounds the depth of the search below it: twice the number
      of ids it can still visit, plus one for the start corner (which has no new children
      to offer but ones with unvisited ids) or two for any other corner. */
  predicate RankOk(ct: seq<Corner>, first: CornerRef, it: Item, rank: nat, visited: set<string>)
    requires it.corner < |ct|
  {
    rank >= 2 * |AllIds(ct) - (visited + {ct[it.corner].id})| + (if it.corner == first then 1 else 2)
  }

  lemma {:induction false} SubsetCard<T>(x: set<T>, y: set<T>)
    requires x <= y
    ensures |x| <= |y|
    decreases |y|
  {
    if x != y {
      var e :| e in y && e !in x;
      SubsetCard(x, y - {e});
    }
  }

  lemma RankOkGrows(ct: seq<Corner>, first: CornerRef, it: Item, rank: nat, v1: set<string>, v2: set<string>)
    requires it.corner < |ct| && v1 <= v2
    requires RankOk(ct, first, it, rank, v1)
    ensures RankOk(ct, first, it, rank, v2)
  {
    var id := ct[it.corner].id;
    SubsetCard(AllIds(ct) - (v2 + {id}), AllIds(ct) - (v1 + {id}));
  }

  lemma CardVisit(all: set<string>, visited: set<string>, x: string)
    requires x in all && x !in visited
    ensures |all - visited| == |all - (visited + {x})| + 1
  {
    assert all - visited == (all - (visited + {x})) + {x};
  }

  lemma WalkSnoc(ct: seq<Corner>, wt: seq<Wall>, path: seq<CornerRef>, x: CornerRef)
    requires GraphOk(ct, wt) && AllBelow(path, |ct|) && path != [] && x < |ct|
    requires IsWalk(ct, wt, path)
    requires x in AdjacentCorners(wt, ct[path[|path| - 1]])
    ensures IsWalk(ct, wt, path + [x])
  {
    var p := path + [x];
    forall k | 0 <= k < |p| - 1 ensures p[k + 1] in AdjacentCorners(wt, ct[p[k]]) {
      if k < |path| - 1 {
        assert p[k] == path[k] && p[k + 1] == path[k + 1];
      }
    }
  }

  /** Whether the search pushes adjacent corner `x` while at `current`: not when its id has
      been visited, unless it is the start corner and `current` is not the second one. */
  predicate Pushable(ct: seq<Corner>, first: CornerRef, second: CornerRef, current: CornerRef, x: CornerRef, visited: set<string>)
    requires x < |ct|
  {
    !(ct[x].id != "" && ct[x].id in visited && !(x == first && current != second))
  }

  /** Every corner in `xs` is adjacent to `current` and may be pushed. */
  predicate AllPushable(ct: seq<Corner>, wt: seq<Wall>, first: CornerRef, second: CornerRef, current: CornerRef,
                        xs: seq<CornerRef>, visited: set<string>)
    requires GraphOk(ct, wt) && current < |ct|
  {
    forall k :: 0 <= k < |xs| ==>
      xs[k] < |ct| && Linked(ct, wt, current, xs[k]) && Pushable(ct, first, second, current, xs[k], visited)
  }

  /** Every adjacent corner of `current` that may be pushed is in `xs`. */
  predicate HoldsAllPushable(ct: seq<Corner>, wt: seq<Wall>, first: CornerRef, second: CornerRef, current: CornerRef,
                             xs: seq<CornerRef>, visited: set<string>)
    requires GraphOk(ct, wt) && current < |ct|
  {
    var adjacent := AdjacentCorners(wt, ct[current]);
    forall k :: 0 <= k < |adjacent| && adjacent[k] < |ct| && Pushable(ct, first, second, current, adjacent[k], visited)
      ==> adjacent[k] in xs
  }

  /** A permutation of the pushable corners is as good as the corners themselves. */
  lemma PermutationKeepsPushable(ct: seq<Corner>, wt: seq<Wall>, first: CornerRef, second: CornerRef, current: CornerRef,
                                 xs: seq<CornerRef>, ys: seq<CornerRef>, visited: set<string>)
    requires GraphOk(ct, wt) && current < |ct|
    requires AllPushable(ct, wt, first, second, current, xs, visited)
    requires multiset(ys) == multiset(xs)
    ensures AllPushable(ct, wt, first, second, current, ys, visited)
    ensures HoldsAllPushable(ct, wt, first, second, current, xs, visited)
            ==> HoldsAllPushable(ct, wt, first, second, current, ys, visited)
    ensures |ys| == |xs|
  {
    forall x | x in xs ensures x in ys {
      assert x in multiset(xs);
    }
    forall k | 0 <= k < |ys|
      ensures ys[k] < |ct| && Linked(ct, wt, current, ys[k]) && Pushable(ct, first, second, current, ys[k], visited)
    {
      assert ys[k] in multiset(xs);
      var i :| 0 <= i < |xs| && xs[i] == ys[k];
    }
    assert |ys| == |multiset(ys)| == |xs|;
  }

  /** The corners adjacent to `current` that the search pushes, in adjacency order: all
      those whose id is unvisited, and the start corner unless `current` is the second. */
  method UnvisitedNeighbours(ct: seq<Corner>, wt: seq<Wall>, first: CornerRef, second: CornerRef,
                             current: CornerRef, visited: set<string>)
    returns (addToStack: seq<CornerRef>)
    requires GraphOk(ct, wt) && current < |ct|
    ensures AllPushable(ct, wt, first, second, current, addToStack, visited)
    ensures |addToStack| <= |AdjacentCorners(wt, ct[current])|
    ensures HoldsAllPushable(ct, wt, first, second, current, addToStack, visited)
  {
    AdjacentInTable(ct, wt, current);
    var adjacent := AdjacentCornersOf(wt, ct[current]);
    addToStack := [];
    for i := 0 to |adjacent|
      invariant |addToStack| <= i
      invariant AllPushable(ct, wt, first, second, current, addToStack, visited)
      invariant CollectedFrom(ct, first, second, current, adjacent[..i], addToStack, visited)
    {
      var nextCorner := adjacent[i];
      CollectedStep(ct, first, second, current, adjacent[..i], nextCorner, addToStack, visited);
      assert adjacent[..i + 1] == adjacent[..i] + [nextCorner];
      if !(ct[nextCorner].id != "" && ct[nextCorner].id in visited && !(nextCorner == first && current != second)) {
        assert Linked(ct, wt, current, nextCorner);
        addToStack := addToStack + [nextCorner];
      }
    }
    assert adjacent[..|adjacent|] == adjacent;
  }

  /** Every corner of `ys` that may be pushed is in `xs`. */
  predicate CollectedFrom(ct: seq<Corner>, first: CornerRef, second: CornerRef, current: CornerRef,
                          ys: seq<CornerRef>, xs: seq<CornerRef>, visited: set<string>)
  {
    forall k :: 0 <= k < |ys| && ys[k] < |ct| && Pushable(ct, first, second, current, ys[k], visited) ==> ys[k] in xs
  }

  /** Looking at one more corner, and keeping it when it may be pushed, keeps every
      pushable corner looked at. */
  lemma CollectedStep(ct: seq<Corner>, first: CornerRef, second: CornerRef, current: CornerRef,
                      ys: seq<CornerRef>, y: CornerRef, xs: seq<CornerRef>, visited: set<string>)
    requires CollectedFrom(ct, first, second, current, ys, xs, visited) && y < |ct|
    ensures CollectedFrom(ct, first, second, current, ys + [y], xs + [y], visited)
    ensures !Pushable(ct, first, second, current, y, visited) ==>
      CollectedFrom(ct, first, second, current, ys + [y], xs, visited)
  {
    assert forall x :: x in xs ==> x in xs + [y];
  }

  /** The key the neighbours are sorted by: the angle at `current` from the corner before. */
  function ThetaKey(ct: seq<Corner>, angle2pi: Angle, previous: Point, current: Point): CornerRef -> real {
    (x: CornerRef) => if x < |ct| then CalculateTheta(angle2pi, previous, current, CornerPoint(ct, x)) else 0.0
  }

  /** A corner pushed after visiting `item` is a pending item of its own, one rank below. */
  lemma ChildOk(ct: seq<Corner>, wt: seq<Wall>, first: CornerRef, second: CornerRef, item: Item, rank: nat,
                before: set<string>, visited: set<string>, x: CornerRef)
    requires GraphOk(ct, wt) && IdsNonEmpty(ct) && first < |ct|
    requires ItemOk(ct, wt, first, second, item, before) && RankOk(ct, first, item, rank, before)
    requires visited == before + {ct[item.corner].id} && visited <= AllIds(ct) && ct[first].id in visited
    requires !(item.corner == first && item.corner != second)
    requires x < |ct| && x in AdjacentCorners(wt, ct[item.corner])
    requires Pushable(ct, first, second, item.corner, x, visited)
    ensures var u := |AllIds(ct) - visited|;
            var childRank: nat := if x == first then 2 * u + 1 else 2 * u;
            && ItemOk(ct, wt, first, second, Item(x, item.previousCorners + [item.corner]), visited)
            && RankOk(ct, first, Item(x, item.previousCorners + [item.corner]), childRank, visited)
            && childRank < rank
  {
    var all := AllIds(ct);
    var u := |all - visited|;
    var prev := item.previousCorners + [item.corner];
    assert ct[x].id in all;
    WalkSnoc(ct, wt, prev, x);
    forall k | 0 <= k < |prev| ensures ct[prev[k]].id in visited {
      if k < |prev| - 1 {
        assert prev[k] == item.previousCorners[k];
      }
    }
    if first != second {
      assert item.corner !in item.previousCorners;
      if x != first {
        assert ct[x].id !in visited;
        assert x !in prev;
      }
    }
    if x != first {
      assert ct[x].id !in visited;
      CardVisit(all, visited, ct[x].id);
    } else {
      assert visited + {ct[x].id} == visited;
      assert item.corner != first;
    }
  }

  /** The items pushed for the corners `xs`, all reached by the path `prev`. */
  function Children(xs: seq<CornerRef>, prev: seq<CornerRef>): (r: seq<Item>)
    ensures |r| == |xs|
    ensures forall k :: 0 <= k < |xs| ==> r[k] == Item(xs[k], prev)
  {
    if xs == [] then [] else Children(xs[..|xs| - 1], prev) + [Item(xs[|xs| - 1], prev)]
  }

  /** Their ranks: twice the unvisited count `u`, plus one for the start corner. */
  function ChildRanks(xs: seq<CornerRef>, first: CornerRef, u: nat): (r: seq<nat>)
    ensures |r| == |xs|
    ensures forall k :: 0 <= k < |xs| ==> r[k] == if xs[k] == first then 2 * u + 1 else 2 * u
  {
    if xs == [] then [] else ChildRanks(xs[..|xs| - 1], first, u) + [if xs[|xs| - 1] == first then 2 * u + 1 else 2 * u]
  }

  /** Every pending item on the stack is well-formed and holds its rank. */
  predicate StackOk(ct: seq<Corner>, wt: seq<Wall>, first: CornerRef, second: CornerRef,
                    stack: seq<Item>, ranks: seq<nat>, visited: set<string>)
    requires GraphOk(ct, wt)
  {
    && |stack| == |ranks|
    && (stack != [] ==>
          && StackOk(ct, wt, first, second, stack[..|stack| - 1], ranks[..|ranks| - 1], visited)
          && ItemOk(ct, wt, first, second, stack[|stack| - 1], visited)
          && RankOk(ct, first, stack[|stack| - 1], ranks[|ranks| - 1], visited))
  }

  lemma {:induction false} StackOkGrows(ct: seq<Corner>, wt: seq<Wall>, first: CornerRef, second: CornerRef,
                                        stack: seq<Item>, ranks: seq<nat>, v1: set<string>, v2: set<string>)
    requires GraphOk(ct, wt) && v1 <= v2
    requires StackOk(ct, wt, first, second, stack, ranks, v1)
    ensures StackOk(ct, wt, first, second, stack, ranks, v2)
    decreases |stack|
  {
    if stack != [] {
      StackOkGrows(ct, wt, first, second, stack[..|stack| - 1], ranks[..|ranks| - 1], v1, v2);
      RankOkGrows(ct, first, stack[|stack| - 1], ranks[|ranks| - 1], v1, v2);
    }
  }

  /** Every item is well-formed and holds its rank. */
  predicate ItemsOk(ct: seq<Corner>, wt: seq<Wall>, first: CornerRef, second: CornerRef,
                    items: seq<Item>, itemRanks: seq<nat>, visited: set<string>)
    requires GraphOk(ct, wt)
  {
    && |items| == |itemRanks|
    && forall j :: 0 <= j < |items| ==>
         ItemOk(ct, wt, first, second, items[j], visited) && RankOk(ct, first, items[j], itemRanks[j], visited)
  }

  /** Pushing well-formed items keeps the stack well-formed. */
  lemma {:induction false} PushOk(ct: seq<Corner>, wt: seq<Wall>, first: CornerRef, second: CornerRef,
                                  stack: seq<Item>, ranks: seq<nat>, items: seq<Item>, itemRanks: seq<nat>, visited: set<string>)
    requires GraphOk(ct, wt)
    requires StackOk(ct, wt, first, second, stack, ranks, visited)
    requires ItemsOk(ct, wt, first, second, items, itemRanks, visited)
    ensures StackOk(ct, wt, first, second, stack + items, ranks + itemRanks, visited)
    decreases |items|
  {
    if items == [] {
      assert stack + items == stack;
      assert ranks + itemRanks == ranks;
    } else {
      var m := |items| - 1;
      PushOk(ct, wt, first, second, stack, ranks, items[..m], itemRanks[..m], visited);
      PushOne(ct, wt, first, second, stack + items[..m], ranks + itemRanks[..m], items[m], itemRanks[m], visited);
      AppendLast(stack, items);
      AppendLast(ranks, itemRanks);
    }
  }

  lemma AppendLast<T>(a: seq<T>, b: seq<T>)
    requires b != []
    ensures a + b == (a + b[..|b| - 1]) + [b[|b| - 1]]
  {
  }

  lemma PushOne(ct: seq<Corner>, wt: seq<Wall>, first: CornerRef, second: CornerRef,
                stack: seq<Item>, ranks: seq<nat>, item: Item, rank: nat, visited: set<string>)
    requires GraphOk(ct, wt)
    requires StackOk(ct, wt, first, second, stack, ranks, visited)
    requires ItemOk(ct, wt, first, second, item, visited) && RankOk(ct, first, item, rank, visited)
    ensures StackOk(ct, wt, first, second, stack + [item], ranks + [rank], visited)
  {
    assert (stack + [item])[..|stack|] == stack;
    assert (ranks + [rank])[..|ranks|] == ranks;
  }

  /** The children pushed after visiting an item are well-formed and rank below it. */
  lemma ChildrenOk(ct: seq<Corner>, wt: seq<Wall>, first: CornerRef, second: CornerRef, item: Item, rank: nat,
                   before: set<string>, visited: set<string>, xs: seq<CornerRef>)
    requires GraphOk(ct, wt) && IdsNonEmpty(ct) && first < |ct|
    requires ItemOk(ct, wt, first, second, item, before) && RankOk(ct, first, item, rank, before)
    requires visited == before + {ct[item.corner].id} && visited <= AllIds(ct) && ct[first].id in visited
    requires !(item.corner == first && item.corner != second)
    requires item.corner < |ct| && AllPushable(ct, wt, first, second, item.corner, xs, visited)
    ensures ItemsOk(ct, wt, first, second, Children(xs, item.previousCorners + [item.corner]),
                    ChildRanks(xs, first, |AllIds(ct) - visited|), visited)
    ensures var itemRanks := ChildRanks(xs, first, |AllIds(ct) - visited|);
            forall j :: 0 <= j < |itemRanks| ==> itemRanks[j] < rank
  {
    var items := Children(xs, item.previousCorners + [item.corner]);
    var itemRanks := ChildRanks(xs, first, |AllIds(ct) - visited|);
    forall j | 0 <= j < |xs|
      ensures && ItemOk(ct, wt, first, second, items[j], visited)
              && RankOk(ct, first, items[j], itemRanks[j], visited)
              && itemRanks[j] < rank
    {
      ChildOk(ct, wt, first, second, item, rank, before, visited, xs[j]);
    }
  }

  /** Up to `b - 1` ranks below `rank`, appended to a stack, weigh less than `rank` did. */
  lemma PushWeighsLess(ranks: seq<nat>, crs: seq<nat>, rank: nat, b: nat)
    requires b >= 1 && rank >= 1 && |crs| < b
    requires forall j :: 0 <= j < |crs| ==> crs[j] < rank
    ensures Pot(ranks + crs, b) < Pot(ranks, b) + Pow(b, rank)
  {
    PotAppend(ranks, crs, b);
    PotBelow(crs, rank, b - 1);
  }

  /** No corner has more adjacent corners than the largest number of walls at a corner. */
  lemma DegreeBound(ct: seq<Corner>, wt: seq<Wall>, c: CornerRef)
    requires GraphOk(ct, wt) && c < |ct|
    ensures |AdjacentCorners(wt, ct[c])| <= MaxDegree(ct)
  {
    AdjacentInTable(ct, wt, c);
    AdjacentCornersMembers(wt, ct[c], c);
  }

  /** One expansion step: the stack with the children pushed keeps its invariant and weighs less. */
  lemma StepOk(ct: seq<Corner>, wt: seq<Wall>, first: CornerRef, second: CornerRef, item: Item, rank: nat,
               before: set<string>, visited: set<string>, xs: seq<CornerRef>,
               stack: seq<Item>, ranks: seq<nat>, b: nat)
    requires GraphOk(ct, wt) && IdsNonEmpty(ct) && first < |ct|
    requires ItemOk(ct, wt, first, second, item, before) && RankOk(ct, first, item, rank, before)
    requires visited == before + {ct[item.corner].id} && visited <= AllIds(ct) && ct[first].id in visited
    requires !(item.corner == first && item.corner != second)
    requires AllPushable(ct, wt, first, second, item.corner, xs, visited)
    requires b == MaxDegree(ct) + 1 && |xs| <= |AdjacentCorners(wt, ct[item.corner])|
    requires StackOk(ct, wt, first, second, stack, ranks, visited)
    ensures var crs := ChildRanks(xs, first, |AllIds(ct) - visited|);
            && StackOk(ct, wt, first, second, stack + Children(xs, item.previousCorners + [item.corner]), ranks + crs, visited)
            && Pot(ranks + crs, b) < Pot(ranks, b) + Pow(b, rank)
  {
    var items := Children(xs, item.previousCorners + [item.corner]);
    var crs := ChildRanks(xs, first, |AllIds(ct) - visited|);
    ChildrenOk(ct, wt, first, second, item, rank, before, visited, xs);
    PushOk(ct, wt, first, second, stack, ranks, items, crs, visited);
    DegreeBound(ct, wt, item.corner);
    assert |crs| < b && rank >= 1;
    PushWeighsLess(ranks, crs, rank, b);
  }

  /** An item that is back at the start corner carries a cycle through the two given corners. */
  lemma ReturnedCycle(ct: seq<Corner>, wt: seq<Wall>, first: CornerRef, second: CornerRef, item: Item, visited: set<string>)
    requires GraphOk(ct, wt) && ItemOk(ct, wt, first, second, item, visited)
    requires item.corner == first && first != second
    ensures AllBelow(item.previousCorners, |ct|)
    ensures |item.previousCorners| >= 2 && item.previousCorners[0] == first && item.previousCorners[1] == second
    ensures IsCycle(ct, wt, item.previousCorners)
  {
  }

  /** Popping the top of a well-formed stack yields a well-formed item and stack. */
  lemma PopOk(ct: seq<Corner>, wt: seq<Wall>, first: CornerRef, second: CornerRef,
              stack: seq<Item>, ranks: seq<nat>, visited: set<string>, b: nat)
    requires GraphOk(ct, wt) && stack != []
    requires StackOk(ct, wt, first, second, stack, ranks, visited)
    ensures |ranks| == |stack|
    ensures StackOk(ct, wt, first, second, stack[..|stack| - 1], ranks[..|ranks| - 1], visited)
    ensures ItemOk(ct, wt, first, second, stack[|stack| - 1], visited)
    ensures RankOk(ct, first, stack[|stack| - 1], ranks[|ranks| - 1], visited)
    ensures Pot(ranks, b) == Pot(ranks[..|ranks| - 1], b) + Pow(b, ranks[|ranks| - 1])
  {
  }

  /** The body of the search loop after the visit of `item`: collects the adjacent corners
      it may go on to, sorts them by decreasing angle when there are several, and pushes
      them all with the path extended by `item`'s corner. */
  method PushNeighbours(ct: seq<Corner>, wt: seq<Wall>, angle2pi: Angle, first: CornerRef, second: CornerRef,
                        item: Item, ghost rank: nat, ghost before: set<string>, visited: set<string>,
                        stack: seq<Item>, ghost ranks: seq<nat>, ghost b: nat)
    returns (addToStack: seq<CornerRef>, newStack: seq<Item>, ghost newRanks: seq<nat>)
    requires GraphOk(ct, wt) && IdsNonEmpty(ct) && first < |ct|
    requires ItemOk(ct, wt, first, second, item, before) && RankOk(ct, first, item, rank, before)
    requires visited == before + {ct[item.corner].id} && visited <= AllIds(ct) && ct[first].id in visited
    requires !(item.corner == first && item.corner != second)
    requires b == MaxDegree(ct) + 1
    requires StackOk(ct, wt, first, second, stack, ranks, before)
    ensures AllPushable(ct, wt, first, second, item.corner, addToStack, visited)
    ensures HoldsAllPushable(ct, wt, first, second, item.corner, addToStack, visited)
    ensures var previous := item.previousCorners[|item.previousCorners| - 1];
            |addToStack| > 1 ==>
              SortedDesc(addToStack, ThetaKey(ct, angle2pi, CornerPoint(ct, previous), CornerPoint(ct, item.corner)))
    ensures newStack == stack + Children(addToStack, item.previousCorners + [item.corner])
    ensures StackOk(ct, wt, first, second, newStack, newRanks, visited)
    ensures Pot(newRanks, b) < Pot(ranks, b) + Pow(b, rank)
  {
    var current := item.corner;
    StackOkGrows(ct, wt, first, second, stack, ranks, before, visited);
    addToStack := UnvisitedNeighbours(ct, wt, first, second, current, visited);
    var previousCorners := item.previousCorners + [current];
    if |addToStack| > 1 {
      var previousCorner := item.previousCorners[|item.previousCorners| - 1];
      var key := ThetaKey(ct, angle2pi, CornerPoint(ct, previousCorner), CornerPoint(ct, current));
      var sorted := SortDesc(addToStack, key);
      SortDescSorted(addToStack, key);
      PermutationKeepsPushable(ct, wt, first, second, current, addToStack, sorted, visited);
      addToStack := sorted;
    }
    newStack := stack + Children(addToStack, previousCorners);
    newRanks := ranks + ChildRanks(addToStack, first, |AllIds(ct) - visited|);
    StepOk(ct, wt, first, second, item, rank, before, visited, addToStack, stack, ranks, b);
  }

  /** The invariant of the search loop: the visited ids are ids of corners and include
      `first`'s, and the stack and the next item to try are well formed. */
  predicate SearchOk(ct: seq<Corner>, wt: seq<Wall>, first: CornerRef, second: CornerRef,
                     stack: seq<Item>, ranks: seq<nat>, next: Option<Item>, rnext: nat, visited: set<string>)
    requires GraphOk(ct, wt) && first < |ct|
  {
    && visited <= AllIds(ct) && ct[first].id in visited
    && StackOk(ct, wt, first, second, stack, ranks, visited)
    && (next.Some? ==>
          ItemOk(ct, wt, first, second, next.value, visited) && RankOk(ct, first, next.value, rnext, visited))
  }

  /** The search starts from the walk `first, second` with only `first` visited. */
  lemma SearchStarts(ct: seq<Corner>, wt: seq<Wall>, first: CornerRef, second: CornerRef, visited: set<string>)
    requires GraphOk(ct, wt) && IdsNonEmpty(ct)
    requires first < |ct| && second < |ct|
    requires second in AdjacentCorners(wt, ct[first])
    requires visited == if ct[first].id != "" then {ct[first].id} else {}
    ensures SearchOk(ct, wt, first, second, [], [], Some(Item(second, [first])), 2 * |AllIds(ct)| + 2, visited)
  {
    var all := AllIds(ct);
    assert ct[first].id in all;
    SubsetCard(all - (visited + {ct[second].id}), all);
    assert IsWalk(ct, wt, [first, second]);
  }

  /** `_findTightestCycle(first, second)`: a depth-first search from `second` back to
      `first` along walls, trying the smallest angle first. The result is empty or a cycle
      of distinct corners that starts with the two given corners. */
  method FindTightestCycle(ct: seq<Corner>, wt: seq<Wall>, angle2pi: Angle, first: CornerRef, second: CornerRef)
    returns (r: seq<CornerRef>)
    requires GraphOk(ct, wt) && IdsNonEmpty(ct)
    requires first < |ct| && second < |ct|
    requires second in AdjacentCorners(wt, ct[first])
    ensures AllBelow(r, |ct|)
    ensures r == [] || (|r| >= 2 && r[0] == first && r[1] == second && IsCycle(ct, wt, r))
  {
    ghost var b := MaxDegree(ct) + 1;
    var stack: seq<Item> := [];
    ghost var ranks: seq<nat> := [];
    var next: Option<Item> := Some(Item(second, [first]));
    ghost var rnext: nat := 2 * |AllIds(ct)| + 2;
    var visited: set<string> := {};
    if ct[first].id != "" {
      visited := visited + {ct[first].id};
    }
    SearchStarts(ct, wt, first, second, visited);

    while next.Some?
      invariant SearchOk(ct, wt, first, second, stack, ranks, next, rnext, visited)
      decreases Pot(ranks, b) + (if next.Some? then Pow(b, rnext) else 0)
    {
      var item := next.value;
      var current := item.corner;
      ghost var before := visited;
      if ct[current].id != "" {
        visited := visited + {ct[current].id};
      }
      if current == first && current != second {
        ReturnedCycle(ct, wt, first, second, item, before);
        return item.previousCorners;
      }

      next, rnext, stack, ranks := Expand(ct, wt, angle2pi, first, second, item, rnext, before, visited, stack, ranks, b);
    }
    return [];
  }

  /** One round of the search loop after the visit of `item`, which did not close the
      cycle: pushes the corners it may go on to and pops the next item to try, if any. */
  method Expand(ct: seq<Corner>, wt: seq<Wall>, angle2pi: Angle, first: CornerRef, second: CornerRef,
                item: Item, ghost rank: nat, ghost before: set<string>, visited: set<string>,
                stack: seq<Item>, ghost ranks: seq<nat>, ghost b: nat)
    returns (next: Option<Item>, ghost rnext: nat, newStack: seq<Item>, ghost newRanks: seq<nat>)
    requires GraphOk(ct, wt) && IdsNonEmpty(ct) && first < |ct|
    requires ItemOk(ct, wt, first, second, item, before) && RankOk(ct, first, item, rank, before)
    requires visited == before + {ct[item.corner].id} && visited <= AllIds(ct) && ct[first].id in visited
    requires !(item.corner == first && item.corner != second)
    requires b == MaxDegree(ct) + 1
    requires StackOk(ct, wt, first, second, stack, ranks, before)
    ensures SearchOk(ct, wt, first, second, newStack, newRanks, next, rnext, visited)
    ensures Pot(newRanks, b) + (if next.Some? then Pow(b, rnext) else 0) < Pot(ranks, b) + Pow(b, rank)
  {
    var addToStack;
    addToStack, newStack, newRanks := PushNeighbours(ct, wt, angle2pi, first, second, item, rank, before, visited, stack, ranks, b);
    if |newStack| > 0 {
      PopOk(ct, wt, first, second, newStack, newRanks, visited, b);
      next := Some(newStack[|newStack| - 1]);
      rnext := newRanks[|newRanks| - 1];
      newStack := newStack[..|newStack| - 1];
      newRanks := newRanks[..|newRanks| - 1];
    } else {
      next := None;
      rnext := 0;
    }
  }

  // ---------------------------------------------------------------------------------------
  // Rotation de-duplication

  /** The key `_removeDuplicateRooms` registers for a kept room: that of its last rotation. */
  function LastKey(ct: seq<Corner>, room: seq<CornerRef>): string
    requires AllBelow(room, |ct|) && room != []
  {
    RoomKey(ct, Rotate(room, |room| - 1))
  }

  /** No rotation of `room` has its key registered. */
  predicate Unseen(ct: seq<Corner>, lookup: set<string>, room: seq<CornerRef>)
    requires AllBelow(room, |ct|)
  {
    forall j :: 0 <= j < |room| ==> RoomKey(ct, Rotate(room, j)) !in lookup
  }

  /** Whether a room is kept: no rotation seen before and a truthy last key. */
  predicate Admitted(ct: seq<Corner>, lookup: set<string>, room: seq<CornerRef>)
    requires AllBelow(room, |ct|)
  {
    Unseen(ct, lookup, room) && room != [] && LastKey(ct, room) != ""
  }

  predicate AllRoomsBelow(rooms: seq<seq<CornerRef>>, n: nat) {
    forall i :: 0 <= i < |rooms| ==> AllBelow(rooms[i], n)
  }

  /** The rooms `_removeDuplicateRooms` keeps from `rooms` when `lookup` is already registered. */
  function Dedup(ct: seq<Corner>, rooms: seq<seq<CornerRef>>, lookup: set<string>): (r: seq<seq<CornerRef>>)
    requires AllRoomsBelow(rooms, |ct|)
    ensures AllRoomsBelow(r, |ct|)
    decreases |rooms|
  {
    if rooms == [] then []
    else if Admitted(ct, lookup, rooms[0]) then [rooms[0]] + Dedup(ct, rooms[1..], lookup + {LastKey(ct, rooms[0])})
    else Dedup(ct, rooms[1..], lookup)
  }

  /** The keys registered for a list of kept rooms. */
  function KeptKeys(ct: seq<Corner>, kept: seq<seq<CornerRef>>): set<string>
    requires AllRoomsBelow(kept, |ct|)
  {
    if kept == [] then {} else (if kept[0] == [] then {} else {LastKey(ct, kept[0])}) + KeptKeys(ct, kept[1..])
  }

  lemma UnseenShrinks(ct: seq<Corner>, l1: set<string>, l2: set<string>, room: seq<CornerRef>)
    requires AllBelow(room, |ct|) && l1 <= l2
    ensures Unseen(ct, l2, room) ==> Unseen(ct, l1, room)
  {
  }

  /** Every kept room is one of the input rooms, is non-empty and has a non-empty key;
      none of its rotations was registered beforehand. */
  lemma {:induction false} DedupKeeps(ct: seq<Corner>, rooms: seq<seq<CornerRef>>, lookup: set<string>)
    requires AllRoomsBelow(rooms, |ct|)
    ensures var r := Dedup(ct, rooms, lookup);
            && |r| <= |rooms|
            && forall k :: 0 <= k < |r| ==> r[k] in rooms && Admitted(ct, lookup, r[k])
    decreases |rooms|
  {
    if rooms != [] {
      var l2 := if Admitted(ct, lookup, rooms[0]) then lookup + {LastKey(ct, rooms[0])} else lookup;
      DedupKeeps(ct, rooms[1..], l2);
      var rest := Dedup(ct, rooms[1..], l2);
      forall k | 0 <= k < |rest|
        ensures rest[k] in rooms && Admitted(ct, lookup, rest[k])
      {
        assert rest[k] in rooms[1..];
        UnseenShrinks(ct, lookup, l2, rest[k]);
      }
    }
  }

  /** A dropped room is not admitted even against the keys known at the end: it is empty,
      its key is empty, or one of its rotations has a key registered before or by a kept room. */
  lemma {:induction false} DedupDrops(ct: seq<Corner>, rooms: seq<seq<CornerRef>>, lookup: set<string>, i: nat)
    requires AllRoomsBelow(rooms, |ct|) && i < |rooms|
    requires rooms[i] !in Dedup(ct, rooms, lookup)
    ensures !Admitted(ct, lookup + KeptKeys(ct, Dedup(ct, rooms, lookup)), rooms[i])
    decreases |rooms|
  {
    var r := Dedup(ct, rooms, lookup);
    var all := lookup + KeptKeys(ct, r);
    if i == 0 {
      assert !Admitted(ct, lookup, rooms[0]);
      UnseenShrinks(ct, lookup, all, rooms[0]);
    } else {
      assert rooms[1..][i - 1] == rooms[i];
      if Admitted(ct, lookup, rooms[0]) {
        var l2 := lookup + {LastKey(ct, rooms[0])};
        DedupDrops(ct, rooms[1..], l2, i - 1);
        assert all == l2 + KeptKeys(ct, Dedup(ct, rooms[1..], l2));
      } else {
        DedupDrops(ct, rooms[1..], lookup, i - 1);
      }
    }
  }

  /** Neither room is a rotation of the other. */
  predicate Apart(a: seq<CornerRef>, b: seq<CornerRef>) {
    !IsRotationOf(a, b) && !IsRotationOf(b, a)
  }

  /** `x` is apart from every room of `rooms`. */
  predicate ApartFromAll(x: seq<CornerRef>, rooms: seq<seq<CornerRef>>) {
    forall l :: 0 <= l < |rooms| ==> Apart(x, rooms[l])
  }

  /** No room is a rotation of a later one. */
  predicate NoRotations(rooms: seq<seq<CornerRef>>)
    decreases |rooms|
  {
    rooms == [] || (ApartFromAll(rooms[0], rooms[1..]) && NoRotations(rooms[1..]))
  }

  /** In a list without rotations, any two rooms at different places are apart. */
  lemma {:induction false} NoRotationsPairs(rooms: seq<seq<CornerRef>>, k: nat, l: nat)
    requires NoRotations(rooms) && k < l < |rooms|
    ensures Apart(rooms[k], rooms[l])
  {
    if k == 0 {
      assert rooms[1..][l - 1] == rooms[l];
    } else {
      NoRotationsPairs(rooms[1..], k - 1, l - 1);
    }
  }

  /** A rotation of a kept room meets the key registered for it. */
  lemma RotationMeetsKey(ct: seq<Corner>, a: seq<CornerRef>, b: seq<CornerRef>)
    requires AllBelow(a, |ct|) && AllBelow(b, |ct|) && a != []
    requires IsRotationOf(a, b)
    ensures !Unseen(ct, {LastKey(ct, a)}, b)
  {
    var j := RotationBack(a, b);
    assert RoomKey(ct, Rotate(b, j)) in {LastKey(ct, a)};
  }

  /** Some rotation of a rotation `b` of `a` is `a` rotated to start at its last corner. */
  lemma RotationBack<T>(a: seq<T>, b: seq<T>) returns (j: nat)
    requires IsRotationOf(a, b) && a != []
    ensures j < |b| && Rotate(b, j) == Rotate(a, |a| - 1)
  {
    var n := |a|;
    var m :| 0 <= m <= n && Rotate(a, m) == b;
    j := if m <= n - 1 then n - 1 - m else n - 1;
    RotateCompose(a, m, j);
    assert Wrap(m + j, n) == n - 1;
  }

  /** A room admitted after `a` was registered is apart from `a`. */
  lemma AdmittedApart(ct: seq<Corner>, lookup: set<string>, a: seq<CornerRef>, b: seq<CornerRef>)
    requires AllBelow(a, |ct|) && AllBelow(b, |ct|) && a != []
    requires Admitted(ct, lookup + {LastKey(ct, a)}, b)
    ensures Apart(a, b)
  {
    UnseenShrinks(ct, {LastKey(ct, a)}, lookup + {LastKey(ct, a)}, b);
    if IsRotationOf(b, a) {
      RotationSymmetric(b, a);
    }
    if IsRotationOf(a, b) {
      RotationMeetsKey(ct, a, b);
      assert false;
    }
  }

  /** No kept room is a rotation of another kept room. */
  lemma {:induction false} DedupNoRotations(ct: seq<Corner>, rooms: seq<seq<CornerRef>>, lookup: set<string>)
    requires AllRoomsBelow(rooms, |ct|)
    ensures NoRotations(Dedup(ct, rooms, lookup))
    decreases |rooms|
  {
    if rooms != [] {
      if Admitted(ct, lookup, rooms[0]) {
        var l2 := lookup + {LastKey(ct, rooms[0])};
        DedupNoRotations(ct, rooms[1..], l2);
        DedupKeeps(ct, rooms[1..], l2);
        var rest := Dedup(ct, rooms[1..], l2);
        forall l | 0 <= l < |rest|
          ensures Apart(rooms[0], rest[l])
        {
          AdmittedApart(ct, lookup, rooms[0], rest[l]);
        }
        assert ([rooms[0]] + rest)[1..] == rest;
      } else {
        DedupNoRotations(ct, rooms[1..], lookup);
      }
    }
  }

  /** Corners are objects, so every one is truthy for `Utils.cycle`. */
  function Always(c: CornerRef): bool {
    true
  }

  /** One pass of the inner loop of `_removeDuplicateRooms`: every rotation via `Utils.cycle`,
      its key looked up. Returns `add` and the last key `str` (None while undefined). */
  method ScanRotations(ct: seq<Corner>, lookup: map<string, bool>, room: seq<CornerRef>)
    returns (add: bool, str: Option<string>)
    requires AllBelow(room, |ct|)
    ensures add <==> Unseen(ct, lookup.Keys, room)
    ensures room == [] ==> str == None
    ensures room != [] ==> str == Some(LastKey(ct, room))
  {
    add := true;
    str := None;
    var j := 0;
    while j < |room|
      invariant 0 <= j <= |room|
      invariant add <==> forall k :: 0 <= k < j ==> RoomKey(ct, Rotate(room, k)) !in lookup.Keys
      invariant j == 0 ==> str == None
      invariant j > 0 ==> str == Some(RoomKey(ct, Rotate(room, j - 1)))
    {
      var roomShift := Cycle(room, j, Always);
      CycleIsRotation(room, j, Always);
      RotateBelow(room, j, |ct|);
      var key := RoomKey(ct, roomShift);
      str := Some(key);
      if HasProperty(lookup, key) {
        add := false;
      }
      j := j + 1;
    }
  }

  /** One step of `Dedup` at index `i`. */
  lemma DedupStep(ct: seq<Corner>, rooms: seq<seq<CornerRef>>, i: nat, lookup: set<string>)
    requires AllRoomsBelow(rooms, |ct|) && i < |rooms|
    ensures Dedup(ct, rooms[i..], lookup) ==
            if Admitted(ct, lookup, rooms[i]) then [rooms[i]] + Dedup(ct, rooms[i + 1..], lookup + {LastKey(ct, rooms[i])})
            else Dedup(ct, rooms[i + 1..], lookup)
  {
    assert rooms[i..][0] == rooms[i] && rooms[i..][1..] == rooms[i + 1..];
  }

  lemma AppendAssoc<T>(a: seq<T>, b: seq<T>, c: seq<T>)
    ensures a + b + c == a + (b + c)
  {
  }

  /** `_removeDuplicateRooms`: keeps a room unless one of its rotations has a registered key,
      and registers the key of its last rotation. */
  method RemoveDuplicateRooms(ct: seq<Corner>, roomArray: seq<seq<CornerRef>>) returns (results: seq<seq<CornerRef>>)
    requires AllRoomsBelow(roomArray, |ct|)
    ensures results == Dedup(ct, roomArray, {})
  {
    results := [];
    var lookup: map<string, bool> := map[];
    var i := 0;
    assert roomArray[0..] == roomArray && lookup.Keys == {};
    while i < |roomArray|
      invariant 0 <= i <= |roomArray|
      invariant results + Dedup(ct, roomArray[i..], lookup.Keys) == Dedup(ct, roomArray, {})
    {
      var room := roomArray[i];
      var add, str := ScanRotations(ct, lookup, room);
      DedupStep(ct, roomArray, i, lookup.Keys);
      if add && str.Some? && str.value != "" {
        ghost var keys := lookup.Keys + {str.value};
        AppendAssoc(results, [room], Dedup(ct, roomArray[i + 1..], keys));
        results := results + [room];
        lookup := lookup[str.value := true];
        assert lookup.Keys == keys;
      }
      i := i + 1;
    }
  }

  // ---------------------------------------------------------------------------------------
  // findRooms

  /** The positions of a room's corners. */
  function RoomPoints(ct: seq<Corner>, room: seq<CornerRef>): (r: seq<Point>)
    requires AllBelow(room, |ct|)
    ensures |r| == |room|
    ensures forall i :: 0 <= i < |room| ==> r[i] == CornerPoint(ct, room[i])
  {
    seq(|room|, i requires 0 <= i < |room| => CornerPoint(ct, room[i]))
  }

  /** The `filter(isClockwise)` at the end of `findRooms`: exactly the clockwise rooms, in order. */
  function ClockwiseOnly(ct: seq<Corner>, rooms: seq<seq<CornerRef>>): (r: seq<seq<CornerRef>>)
    requires AllRoomsBelow(rooms, |ct|)
    ensures |r| <= |rooms| && AllRoomsBelow(r, |ct|)
    ensures forall i :: 0 <= i < |r| ==> r[i] in rooms && IsClockwise(RoomPoints(ct, r[i]))
    ensures forall i :: 0 <= i < |rooms| && IsClockwise(RoomPoints(ct, rooms[i])) ==> rooms[i] in r
  {
    if rooms == [] then []
    else (if IsClockwise(RoomPoints(ct, rooms[0])) then [rooms[0]] else []) + ClockwiseOnly(ct, rooms[1..])
  }

  /** Filtering keeps the rooms pairwise apart. */
  lemma {:induction false} ClockwiseOnlyKeepsNoRotations(ct: seq<Corner>, rooms: seq<seq<CornerRef>>)
    requires AllRoomsBelow(rooms, |ct|) && NoRotations(rooms)
    ensures NoRotations(ClockwiseOnly(ct, rooms))
  {
    if rooms != [] {
      var tail := rooms[1..];
      ClockwiseOnlyKeepsNoRotations(ct, tail);
      var rest := ClockwiseOnly(ct, tail);
      if IsClockwise(RoomPoints(ct, rooms[0])) {
        forall l | 0 <= l < |rest|
          ensures Apart(rooms[0], rest[l])
        {
          assert rest[l] in tail;
        }
        var r := ClockwiseOnly(ct, rooms);
        assert r == [rooms[0]] + rest;
        assert r[0] == rooms[0] && r[1..] == rest;
      } else {
        assert ClockwiseOnly(ct, rooms) == rest;
      }
    }
  }

  /** Every room is a cycle of the plan graph. */
  predicate AllCycles(ct: seq<Corner>, wt: seq<Wall>, rooms: seq<seq<CornerRef>>)
    requires GraphOk(ct, wt) && AllRoomsBelow(rooms, |ct|)
  {
    forall i :: 0 <= i < |rooms| ==> rooms[i] == [] || IsCycle(ct, wt, rooms[i])
  }

  /** `FloorPlan.findRooms`: the tightest cycle for every corner and adjacent corner, rotation
      duplicates removed, then the rooms `isClockwise` accepts. */
  method FindRooms(ct: seq<Corner>, wt: seq<Wall>, angle2pi: Angle, corners: seq<CornerRef>)
    returns (rooms: seq<seq<CornerRef>>)
    requires GraphOk(ct, wt) && IdsNonEmpty(ct) && AllBelow(corners, |ct|)
    ensures AllRoomsBelow(rooms, |ct|)
    ensures forall i :: 0 <= i < |rooms| ==> IsCycle(ct, wt, rooms[i]) && IsClockwise(RoomPoints(ct, rooms[i]))
    ensures NoRotations(rooms)
  {
    var loops: seq<seq<CornerRef>> := [];
    for i := 0 to |corners|
      invariant AllRoomsBelow(loops, |ct|) && AllCycles(ct, wt, loops)
    {
      var firstCorner := corners[i];
      var adjacent := AdjacentCorners(wt, ct[firstCorner]);
      AdjacentInTable(ct, wt, firstCorner);
      for j := 0 to |adjacent|
        invariant AllRoomsBelow(loops, |ct|) && AllCycles(ct, wt, loops)
      {
        var loop := FindTightestCycle(ct, wt, angle2pi, firstCorner, adjacent[j]);
        loops := loops + [loop];
      }
    }
    var uniqueLoops := RemoveDuplicateRooms(ct, loops);
    DedupKeeps(ct, loops, {});
    DedupNoRotations(ct, loops, {});
    rooms := ClockwiseOnly(ct, uniqueLoops);
    ClockwiseOnlyKeepsNoRotations(ct, uniqueLoops);
  }
}
