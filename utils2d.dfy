/** The scalar geometry kernel (src/utils/Utils2D.ts): projection onto a segment, distances,
    the shoelace orientation test, orientation-based segment intersection and ray-parity
    point-in-polygon. Coordinates are reals; every distance is kept SQUARED, because the
    source only ever compares a square root with a positive tolerance. The trigonometric
    `angle`/`angle2pi` are not modelled here: their users take them as function parameters. */
module Utils2D {
  import opened Wrappers
  import Utils

  datatype Point = Point(x: real, y: real)

  /** `Math.pow(r, 2)`. */
  function Sq(r: real): real {
    r * r
  }

  /** A product of two reals, so that the sign lemma below is about two distinct factors. */
  function Product(a: real, b: real): real {
    a * b
  }

  lemma ProductPositive(a: real, b: real)
    requires (a > 0.0 && b > 0.0) || (a < 0.0 && b < 0.0)
    ensures Product(a, b) > 0.0
  {
  }

  /** A square is never negative, and positive unless the number is zero. */
  lemma SqSign(r: real)
    ensures Sq(r) >= 0.0
    ensures r != 0.0 ==> Sq(r) > 0.0
  {
    if r != 0.0 {
      ProductPositive(r, r);
      assert Sq(r) == Product(r, r);
    }
  }

  /** The square of `Utils2D.distance(x1, y1, x2, y2)`. */
  function DistanceSq(x1: real, y1: real, x2: real, y2: real): real {
    Sq(x2 - x1) + Sq(y2 - y1)
  }

  /** A squared distance is never negative, and zero exactly when the points coincide. */
  lemma DistanceSqSign(x1: real, y1: real, x2: real, y2: real)
    ensures DistanceSq(x1, y1, x2, y2) >= 0.0
    ensures DistanceSq(x1, y1, x2, y2) == 0.0 <==> x1 == x2 && y1 == y2
  {
    SqSign(x2 - x1);
    SqSign(y2 - y1);
  }

  /** `sqrt(dsq) < tolerance`, stated without the square root: for a positive tolerance the
      two are equivalent, and no distance is below a tolerance that is not positive. */
  predicate Below(dsq: real, tolerance: real) {
    tolerance > 0.0 && dsq < tolerance * tolerance
  }

  /** The point `(x1, y1) + t * ((x2, y2) - (x1, y1))` of the line through the two points. */
  function Lerp(x1: real, y1: real, x2: real, y2: real, t: real): Point {
    Point(x1 + t * (x2 - x1), y1 + t * (y2 - y1))
  }

  /** closestPointOnLine's `tDot`: the dot product of `(x, y) - (x1, y1)` with the segment. */
  function ProjectionDot(x: real, y: real, x1: real, y1: real, x2: real, y2: real): real {
    (x - x1) * (x2 - x1) + (y - y1) * (y2 - y1)
  }

  /** `Utils2D.closestPointOnLine`. The degenerate segment is tested before the division it
      guards; the source divides first and gets NaN or an infinity, which its own test then
      discards, so the outcome is the same. */
  function ClosestPointOnLine(x: real, y: real, x1: real, y1: real, x2: real, y2: real): Point {
    var tC, tD := x2 - x1, y2 - y1;
    if x1 == x2 && y1 == y2 then Point(x1, y1)
    else
      DistanceSqSign(x1, y1, x2, y2);
      var tParam := ProjectionDot(x, y, x1, y1, x2, y2) / DistanceSq(x1, y1, x2, y2);
      if tParam < 0.0 then Point(x1, y1)
      else if tParam > 1.0 then Point(x2, y2)
      else Point(x1 + tParam * tC, y1 + tParam * tD)
  }

  /** The projection parameter clamped to [0, 1] (0 for a degenerate segment). */
  function ClampedParam(x: real, y: real, x1: real, y1: real, x2: real, y2: real): (t: real)
    ensures 0.0 <= t <= 1.0
  {
    if x1 == x2 && y1 == y2 then 0.0
    else
      DistanceSqSign(x1, y1, x2, y2);
      var tParam := ProjectionDot(x, y, x1, y1, x2, y2) / DistanceSq(x1, y1, x2, y2);
      if tParam < 0.0 then 0.0 else if tParam > 1.0 then 1.0 else tParam
  }

  /** The result of closestPointOnLine always lies on the segment. */
  lemma ClosestPointOnSegment(x: real, y: real, x1: real, y1: real, x2: real, y2: real)
    ensures ClosestPointOnLine(x, y, x1, y1, x2, y2)
         == Lerp(x1, y1, x2, y2, ClampedParam(x, y, x1, y1, x2, y2))
  {
  }

  /** The part of the squared distance to the point with parameter `s` that depends on `s`,
      for a segment with squared length `len` and projection dot product `dot`. */
  function Quad(dot: real, len: real, s: real): real {
    s * s * len - 2.0 * s * dot
  }

  /** Squared distance from `(x, y)` to the point with parameter `s`, expanded. */
  lemma DistanceToLerp(x: real, y: real, x1: real, y1: real, x2: real, y2: real, s: real)
    ensures var p := Lerp(x1, y1, x2, y2, s);
      var a, b, c, d := x - x1, y - y1, x2 - x1, y2 - y1;
      DistanceSq(x, y, p.x, p.y)
        == DistanceSq(x1, y1, x, y) + Quad(ProjectionDot(x, y, x1, y1, x2, y2), DistanceSq(x1, y1, x2, y2), s)
  {
    var a, b, c, d := x - x1, y - y1, x2 - x1, y2 - y1;
    var p := Lerp(x1, y1, x2, y2, s);
    assert p.x - x == s * c - a;
    assert p.y - y == s * d - b;
    assert (s * c - a) * (s * c - a) == s * s * (c * c) - 2.0 * s * (a * c) + a * a;
    assert (s * d - b) * (s * d - b) == s * s * (d * d) - 2.0 * s * (b * d) + b * b;
  }

  /** Below the segment's start (negative projection) the start is the best parameter. */
  lemma QuadLowerClamp(dot: real, len: real, t: real)
    requires len > 0.0 && dot / len < 0.0 && 0.0 <= t <= 1.0
    ensures Quad(dot, len, 0.0) <= Quad(dot, len, t)
  {
    var p := dot / len;
    assert dot == p * len;
    ProductPositive(-p, len);
    assert Product(-p, len) == -dot;
    SqSign(t);
    assert t * t * len >= 0.0 by {
      if t > 0.0 {
        ProductPositive(Sq(t), len);
        assert Product(Sq(t), len) == t * t * len;
      }
    }
    assert t * dot <= 0.0 by {
      if t > 0.0 {
        ProductPositive(t, -dot);
        assert Product(t, -dot) == -(t * dot);
      }
    }
  }

  /** Beyond the segment's end (projection above 1) the end is the best parameter. */
  lemma QuadUpperClamp(dot: real, len: real, t: real)
    requires len > 0.0 && dot / len > 1.0 && 0.0 <= t <= 1.0
    ensures Quad(dot, len, 1.0) <= Quad(dot, len, t)
  {
    var p := dot / len;
    assert dot == p * len;
    ProductPositive(p - 1.0, len);
    assert Product(p - 1.0, len) == dot - len;
    assert Quad(dot, len, t) - Quad(dot, len, 1.0) == (1.0 - t) * (2.0 * dot - len * (t + 1.0));
    assert 2.0 * dot - len * (t + 1.0) > 0.0 by {
      assert len * (t + 1.0) <= 2.0 * len;
    }
    if t < 1.0 {
      ProductPositive(1.0 - t, 2.0 * dot - len * (t + 1.0));
    }
  }

  /** Inside the segment the projection parameter itself is the best parameter. */
  lemma QuadInterior(dot: real, len: real, t: real)
    requires len > 0.0
    ensures Quad(dot, len, dot / len) <= Quad(dot, len, t)
  {
    var s := dot / len;
    assert dot == s * len;
    assert Quad(dot, len, t) - Quad(dot, len, s) == Sq(t - s) * len;
    SqSign(t - s);
    if t != s {
      ProductPositive(Sq(t - s), len);
    }
  }

  /** closestPointOnLine is closest: no point of the segment is nearer to `(x, y)`. */
  lemma ClosestPointIsClosest(x: real, y: real, x1: real, y1: real, x2: real, y2: real, t: real)
    requires 0.0 <= t <= 1.0
    ensures var p, q := ClosestPointOnLine(x, y, x1, y1, x2, y2), Lerp(x1, y1, x2, y2, t);
      DistanceSq(x, y, p.x, p.y) <= DistanceSq(x, y, q.x, q.y)
  {
    var s := ClampedParam(x, y, x1, y1, x2, y2);
    ClosestPointOnSegment(x, y, x1, y1, x2, y2);
    DistanceToLerp(x, y, x1, y1, x2, y2, s);
    DistanceToLerp(x, y, x1, y1, x2, y2, t);
    var dot, len := ProjectionDot(x, y, x1, y1, x2, y2), DistanceSq(x1, y1, x2, y2);
    // only the terms in s and t differ: compare Quad(dot, len, s) with Quad(dot, len, t)
    if x1 == x2 && y1 == y2 {
      assert Lerp(x1, y1, x2, y2, t) == Lerp(x1, y1, x2, y2, s);
    } else {
      DistanceSqSign(x1, y1, x2, y2);
      if dot / len < 0.0 {
        QuadLowerClamp(dot, len, t);
      } else if dot / len > 1.0 {
        QuadUpperClamp(dot, len, t);
      } else {
        QuadInterior(dot, len, t);
      }
    }
  }

  /** The square of `Utils2D.pointDistanceFromLine`: squared distance from `(x, y)` to its
      projection onto the segment. */
  function PointDistanceSqFromLine(x: real, y: real, x1: real, y1: real, x2: real, y2: real): (d: real)
    ensures d >= 0.0
  {
    var p := ClosestPointOnLine(x, y, x1, y1, x2, y2);
    DistanceSqSign(x, y, p.x, p.y);
    DistanceSq(x, y, p.x, p.y)
  }

  /** A point on the segment is at distance zero from it; the distance is never more than
      the distance to either endpoint. */
  lemma PointOnSegmentHasZeroDistance(x1: real, y1: real, x2: real, y2: real, t: real)
    requires 0.0 <= t <= 1.0
    ensures var q := Lerp(x1, y1, x2, y2, t);
      PointDistanceSqFromLine(q.x, q.y, x1, y1, x2, y2) == 0.0
  {
    var q := Lerp(x1, y1, x2, y2, t);
    ClosestPointIsClosest(q.x, q.y, x1, y1, x2, y2, t);
  }

  lemma PointDistanceBelowEndpoints(x: real, y: real, x1: real, y1: real, x2: real, y2: real)
    ensures PointDistanceSqFromLine(x, y, x1, y1, x2, y2) <= DistanceSq(x, y, x1, y1)
    ensures PointDistanceSqFromLine(x, y, x1, y1, x2, y2) <= DistanceSq(x, y, x2, y2)
  {
    ClosestPointIsClosest(x, y, x1, y1, x2, y2, 0.0);
    ClosestPointIsClosest(x, y, x1, y1, x2, y2, 1.0);
    assert Lerp(x1, y1, x2, y2, 0.0) == Point(x1, y1);
    assert Lerp(x1, y1, x2, y2, 1.0) == Point(x2, y2);
  }

  // ---------------------------------------------------------------------------------------
  // isClockwise

  /** One step of isClockwise's sum: the edge from `p` to `q`. */
  function Term(p: Point, q: Point): real {
    (q.x - p.x) * (q.y + p.y)
  }

  /** Sum of Term over consecutive pairs of an open path. */
  function OpenSum(pts: seq<Point>): real {
    if |pts| < 2 then 0.0 else Term(pts[0], pts[1]) + OpenSum(pts[1..])
  }

  /** isClockwise's `tSum`: every edge of the closed cycle, the closing edge last -> first
      included. */
  function ShoelaceSum(pts: seq<Point>): real {
    if pts == [] then 0.0 else OpenSum(pts + [pts[0]])
  }

  /** `Math.min(0, Math.min(...values))`; the minimum of no values is +Infinity, so an empty
      list gives 0. */
  function MinOrZero(values: seq<real>): (m: real)
    ensures m <= 0.0
    ensures forall i :: 0 <= i < |values| ==> m <= values[i]
  {
    if values == [] then 0.0
    else var rest := MinOrZero(values[1..]); if values[0] < rest then values[0] else rest
  }

  function Xs(pts: seq<Point>): seq<real> {
    seq(|pts|, i requires 0 <= i < |pts| => pts[i].x)
  }

  function Translate(pts: seq<Point>, dx: real, dy: real): (r: seq<Point>)
    ensures |r| == |pts|
  {
    seq(|pts|, i requires 0 <= i < |pts| => Point(pts[i].x - dx, pts[i].y - dy))
  }

  /** `Utils2D.isClockwise` as written: it translates by the minimum x on BOTH axes (line 111
      reads `p.x`) and then tests the shoelace sum for `>= 0`. */
  function IsClockwise(points: seq<Point>): bool {
    var tSubX := MinOrZero(Xs(points));
    var tSubY := MinOrZero(Xs(points));
    ShoelaceSum(Translate(points, tSubX, tSubY)) >= 0.0
  }

  lemma {:induction false} OpenSumSnoc(s: seq<Point>, q: Point)
    requires s != []
    ensures OpenSum(s + [q]) == OpenSum(s) + Term(s[|s| - 1], q)
  {
    if |s| >= 2 {
      assert (s + [q])[1..] == s[1..] + [q];
      OpenSumSnoc(s[1..], q);
    }
  }

  lemma {:induction false} OpenSumTranslate(s: seq<Point>, dx: real, dy: real)
    requires s != []
    ensures OpenSum(Translate(s, dx, dy)) == OpenSum(s) - 2.0 * dy * (s[|s| - 1].x - s[0].x)
  {
    var t := Translate(s, dx, dy);
    if |s| >= 2 {
      assert t[1..] == Translate(s[1..], dx, dy);
      OpenSumTranslate(s[1..], dx, dy);
      assert Term(t[0], t[1]) == Term(s[0], s[1]) - 2.0 * dy * (s[1].x - s[0].x);
    }
  }

  /** The shoelace sum of a closed cycle does not change under translation. */
  lemma ShoelaceTranslate(pts: seq<Point>, dx: real, dy: real)
    ensures ShoelaceSum(Translate(pts, dx, dy)) == ShoelaceSum(pts)
  {
    if pts != [] {
      var c := pts + [pts[0]];
      assert Translate(pts, dx, dy) + [Translate(pts, dx, dy)[0]] == Translate(c, dx, dy);
      OpenSumTranslate(c, dx, dy);
    }
  }

  /** The translation isClockwise applies (whichever minimum it subtracts) has no observable
      effect: the result is the sign test of the untranslated shoelace sum. */
  lemma IsClockwiseIsShoelaceSign(points: seq<Point>)
    ensures IsClockwise(points) <==> ShoelaceSum(points) >= 0.0
  {
    ShoelaceTranslate(points, MinOrZero(Xs(points)), MinOrZero(Xs(points)));
  }

  /** Moving the first point to the end leaves the sum unchanged. */
  lemma ShoelaceRotateOne(pts: seq<Point>)
    requires pts != []
    ensures ShoelaceSum(Utils.Rotate(pts, 1)) == ShoelaceSum(pts)
  {
    var a, r := pts[0], pts[1..];
    assert Utils.Rotate(pts, 1) == r + [a];
    if r != [] {
      assert pts + [a] == [a] + (r + [a]);
      assert (pts + [a])[1..] == r + [a];
      assert (r + [a])[0] == r[0];
      OpenSumSnoc(r + [a], r[0]);
    }
  }

  /** isClockwise is invariant under cyclic rotation of its input. */
  lemma {:induction false} IsClockwiseRotate(pts: seq<Point>, j: nat)
    requires j <= |pts|
    ensures IsClockwise(Utils.Rotate(pts, j)) == IsClockwise(pts)
    ensures ShoelaceSum(Utils.Rotate(pts, j)) == ShoelaceSum(pts)
  {
    if j > 0 {
      IsClockwiseRotate(pts, j - 1);
      var r := Utils.Rotate(pts, j - 1);
      ShoelaceRotateOne(r);
      assert Utils.Rotate(r, 1) == Utils.Rotate(pts, j) by {
        if j < |pts| {
          assert r[0] == pts[j - 1];
          assert r[1..] == pts[j..] + pts[..j - 1];
          assert pts[..j] == pts[..j - 1] + [pts[j - 1]];
        } else {
          assert r[1..] + [r[0]] == pts;
          assert Utils.Rotate(pts, j) == pts;
        }
      }
    } else {
      assert Utils.Rotate(pts, 0) == pts;
    }
    IsClockwiseIsShoelaceSign(pts);
    IsClockwiseIsShoelaceSign(Utils.Rotate(pts, j));
  }

  function Reverse<T>(s: seq<T>): (r: seq<T>)
    ensures |r| == |s|
  {
    if s == [] then [] else Reverse(s[1..]) + [s[0]]
  }

  /** Reversing keeps the elements. */
  lemma {:induction false} ReverseMembers<T>(s: seq<T>, x: T)
    ensures x in Reverse(s) <==> x in s
  {
    if s != [] {
      ReverseMembers(s[1..], x);
      assert s == [s[0]] + s[1..];
    }
  }

  /** Reversing `[x] + s` puts `x` last. */
  lemma ReverseCons<T>(x: T, s: seq<T>)
    ensures Reverse([x] + s) == Reverse(s) + [x]
  {
    assert ([x] + s)[1..] == s;
  }

  lemma {:induction false} ReverseLast<T>(s: seq<T>)
    requires s != []
    ensures Reverse(s)[0] == s[|s| - 1]
  {
    if |s| > 1 {
      ReverseLast(s[1..]);
    }
  }

  lemma {:induction false} OpenSumReverse(s: seq<Point>)
    ensures OpenSum(Reverse(s)) == -OpenSum(s)
  {
    if |s| >= 2 {
      OpenSumReverse(s[1..]);
      var rr := Reverse(s[1..]);
      assert rr[|rr| - 1] == s[1] by {
        ReverseLastIsFirst(s[1..]);
      }
      OpenSumSnoc(rr, s[0]);
      assert Term(s[1], s[0]) == -Term(s[0], s[1]);
    } else if |s| == 1 {
      assert Reverse(s) == s;
    }
  }

  lemma {:induction false} ReverseLastIsFirst<T>(s: seq<T>)
    requires s != []
    ensures Reverse(s)[|s| - 1] == s[0]
  {
  }

  /** Reversing the list of points negates the shoelace sum, so a list and its reversal get
      opposite answers unless the sum is zero. */
  lemma ShoelaceReverse(pts: seq<Point>)
    ensures ShoelaceSum(Reverse(pts)) == -ShoelaceSum(pts)
  {
    if pts != [] {
      var n := |pts|;
      var last := pts[n - 1];
      ReverseLast(pts);
      assert ([last] + pts)[1..] == pts;
      assert Reverse([last] + pts) == Reverse(pts) + [last];
      OpenSumReverse([last] + pts);
      assert OpenSum([last] + pts) == Term(last, pts[0]) + OpenSum(pts) by {
        if n == 1 {
          assert ([last] + pts)[1] == pts[0];
        }
      }
      OpenSumSnoc(pts, pts[0]);
    }
  }

  /** Fewer than three points never make a loop with a negative sum: isClockwise is true. */
  lemma IsClockwiseDegenerate(pts: seq<Point>)
    requires |pts| < 3
    ensures IsClockwise(pts)
  {
    IsClockwiseIsShoelaceSign(pts);
    if |pts| == 1 {
      assert pts + [pts[0]] == [pts[0], pts[0]];
      assert OpenSum([pts[0], pts[0]]) == Term(pts[0], pts[0]) + OpenSum([pts[0]]);
    } else if |pts| == 2 {
      var a, b := pts[0], pts[1];
      assert pts + [a] == [a, b, a];
      assert OpenSum([b, a]) == Term(b, a);
      assert Term(b, a) == -Term(a, b);
    }
  }

  // ---------------------------------------------------------------------------------------
  // Segment intersection

  /** The inner `tCCW` of lineLineIntersect: the strict orientation test. */
  predicate CCW(p1: Point, p2: Point, p3: Point) {
    (p3.y - p1.y) * (p2.x - p1.x) > (p2.y - p1.y) * (p3.x - p1.x)
  }

  /** Twice the signed area of the triangle; CCW is "Orient > 0". */
  function Orient(a: Point, b: Point, c: Point): real {
    (b.x - a.x) * (c.y - a.y) - (b.y - a.y) * (c.x - a.x)
  }

  /** `Utils2D.lineLineIntersect` on the segments (p1, p2) and (p3, p4). */
  predicate LineLineIntersect(p1: Point, p2: Point, p3: Point, p4: Point) {
    CCW(p1, p3, p4) != CCW(p2, p3, p4) && CCW(p1, p2, p3) != CCW(p1, p2, p4)
  }

  lemma OrientRotates(a: Point, b: Point, c: Point)
    ensures CCW(a, b, c) <==> Orient(a, b, c) > 0.0
    ensures Orient(a, b, c) == Orient(b, c, a)
  {
  }

  /** Swapping the two segments does not change the answer. */
  lemma LineLineIntersectSymmetric(p1: Point, p2: Point, p3: Point, p4: Point)
    ensures LineLineIntersect(p1, p2, p3, p4) == LineLineIntersect(p3, p4, p1, p2)
  {
    OrientRotates(p1, p3, p4);
    OrientRotates(p3, p4, p1);
    OrientRotates(p2, p3, p4);
    OrientRotates(p3, p4, p2);
    OrientRotates(p1, p2, p3);
    OrientRotates(p3, p1, p2);
    OrientRotates(p1, p2, p4);
    OrientRotates(p4, p1, p2);
  }

  /** Segments that lie on one line are never reported as intersecting, even when they
      overlap: every strict orientation test is false. */
  lemma CollinearNeverIntersect(p1: Point, p2: Point, p3: Point, p4: Point)
    requires Orient(p1, p3, p4) == 0.0 && Orient(p2, p3, p4) == 0.0
    ensures !LineLineIntersect(p1, p2, p3, p4)
  {
  }

  /** Touching configurations depend on the direction of the segments: the segment (0,0)-(2,0)
      meets the segment (1,0)-(1,1), whose end touches it, but the same segment written
      (2,0)-(0,0) does not. */
  lemma TouchingDependsOnDirection()
    ensures LineLineIntersect(Point(0.0, 0.0), Point(2.0, 0.0), Point(1.0, 0.0), Point(1.0, 1.0))
    ensures !LineLineIntersect(Point(2.0, 0.0), Point(0.0, 0.0), Point(1.0, 0.0), Point(1.0, 1.0))
  {
  }

  /** The i-th edge of a closed polygon: from corner i to corner i + 1, the last one back to
      corner 0. */
  function EdgeEnd(corners: seq<Point>, i: nat): Point
    requires i < |corners|
  {
    if i == |corners| - 1 then corners[0] else corners[i + 1]
  }

  /** The early-return scan of linePolygonIntersect, from edge `i` on. */
  predicate LinePolygonFrom(a: Point, b: Point, corners: seq<Point>, i: nat)
    requires i <= |corners|
    decreases |corners| - i
  {
    if i == |corners| then false
    else if LineLineIntersect(a, b, corners[i], EdgeEnd(corners, i)) then true
    else LinePolygonFrom(a, b, corners, i + 1)
  }

  /** `Utils2D.linePolygonIntersect`. */
  predicate LinePolygonIntersect(x1: real, y1: real, x2: real, y2: real, corners: seq<Point>) {
    LinePolygonFrom(Point(x1, y1), Point(x2, y2), corners, 0)
  }

  lemma {:induction false} LinePolygonFromExists(a: Point, b: Point, corners: seq<Point>, i: nat)
    requires i <= |corners|
    ensures LinePolygonFrom(a, b, corners, i)
        <==> exists k :: i <= k < |corners| && LineLineIntersect(a, b, corners[k], EdgeEnd(corners, k))
    decreases |corners| - i
  {
    if i < |corners| {
      LinePolygonFromExists(a, b, corners, i + 1);
    }
  }

  /** linePolygonIntersect is true exactly when some edge, the closing edge included, meets
      the segment; an empty polygon has no edge. */
  lemma LinePolygonIntersectIff(x1: real, y1: real, x2: real, y2: real, corners: seq<Point>)
    ensures LinePolygonIntersect(x1, y1, x2, y2, corners)
        <==> exists k :: 0 <= k < |corners|
               && LineLineIntersect(Point(x1, y1), Point(x2, y2), corners[k], EdgeEnd(corners, k))
    ensures corners == [] ==> !LinePolygonIntersect(x1, y1, x2, y2, corners)
  {
    LinePolygonFromExists(Point(x1, y1), Point(x2, y2), corners, 0);
  }

  predicate PolygonPolygonFrom(first: seq<Point>, second: seq<Point>, i: nat)
    requires i <= |first|
    decreases |first| - i
  {
    if i == |first| then false
    else
      var a, b := first[i], EdgeEnd(first, i);
      if LinePolygonIntersect(a.x, a.y, b.x, b.y, second) then true
      else PolygonPolygonFrom(first, second, i + 1)
  }

  /** `Utils2D.polygonPolygonIntersect`. */
  predicate PolygonPolygonIntersect(firstCorners: seq<Point>, secondCorners: seq<Point>) {
    PolygonPolygonFrom(firstCorners, secondCorners, 0)
  }

  lemma {:induction false} PolygonPolygonFromExists(first: seq<Point>, second: seq<Point>, i: nat)
    requires i <= |first|
    ensures PolygonPolygonFrom(first, second, i)
        <==> exists k, m :: i <= k < |first| && 0 <= m < |second|
               && LineLineIntersect(first[k], EdgeEnd(first, k), second[m], EdgeEnd(second, m))
    decreases |first| - i
  {
    if i < |first| {
      PolygonPolygonFromExists(first, second, i + 1);
      var a, b := first[i], EdgeEnd(first, i);
      LinePolygonIntersectIff(a.x, a.y, b.x, b.y, second);
      assert Point(a.x, a.y) == a && Point(b.x, b.y) == b;
    }
  }

  /** polygonPolygonIntersect is true exactly when some edge of the first polygon meets some
      edge of the second, closing edges included; false when either polygon is empty. */
  lemma PolygonPolygonIntersectIff(first: seq<Point>, second: seq<Point>)
    ensures PolygonPolygonIntersect(first, second)
        <==> exists k, m :: 0 <= k < |first| && 0 <= m < |second|
               && LineLineIntersect(first[k], EdgeEnd(first, k), second[m], EdgeEnd(second, m))
    ensures first == [] || second == [] ==> !PolygonPolygonIntersect(first, second)
  {
    PolygonPolygonFromExists(first, second, 0);
  }

  /** `tIntersects` of pointInPolygon after the edges before `i`, counted from the end. */
  function CrossingCount(s: Point, p: Point, corners: seq<Point>, i: nat): (n: nat)
    requires i <= |corners|
    ensures n <= i
  {
    if i == 0 then 0
    else CrossingCount(s, p, corners, i - 1)
         + (if LineLineIntersect(s, p, corners[i - 1], EdgeEnd(corners, i - 1)) then 1 else 0)
  }

  /** The edges the ray from `s` to `p` crosses, among the first `i`. */
  function CrossedEdges(s: Point, p: Point, corners: seq<Point>, i: nat): set<nat>
    requires i <= |corners|
  {
    set k: nat | k < i && LineLineIntersect(s, p, corners[k], EdgeEnd(corners, k))
  }

  lemma {:induction false} CrossingCountIsCard(s: Point, p: Point, corners: seq<Point>, i: nat)
    requires i <= |corners|
    ensures CrossingCount(s, p, corners, i) == |CrossedEdges(s, p, corners, i)|
  {
    if i > 0 {
      CrossingCountIsCard(s, p, corners, i - 1);
      var prev := CrossedEdges(s, p, corners, i - 1);
      if LineLineIntersect(s, p, corners[i - 1], EdgeEnd(corners, i - 1)) {
        assert CrossedEdges(s, p, corners, i) == prev + {i - 1};
      } else {
        assert CrossedEdges(s, p, corners, i) == prev;
      }
    }
  }

  /** `startX || 0`: a missing start coordinate is 0. Because of this defaulting, the
      source's bounding-box fallback (taken only for an undefined start) can never run. */
  function RayStart(startX: Option<real>, startY: Option<real>): Point {
    Point(startX.GetOr(0.0), startY.GetOr(0.0))
  }

  /** `Utils2D.pointInPolygon`: an odd number of crossings means inside. */
  predicate PointInPolygon(x: real, y: real, corners: seq<Point>, startX: Option<real>, startY: Option<real>) {
    CrossingCount(RayStart(startX, startY), Point(x, y), corners, |corners|) % 2 == 1
  }

  /** pointInPolygon is true exactly when the ray segment from the start point to `(x, y)`
      crosses an odd number of polygon edges, the closing edge included. */
  lemma PointInPolygonParity(x: real, y: real, corners: seq<Point>, startX: Option<real>, startY: Option<real>)
    ensures PointInPolygon(x, y, corners, startX, startY)
        <==> |CrossedEdges(RayStart(startX, startY), Point(x, y), corners, |corners|)| % 2 == 1
    ensures corners == [] ==> !PointInPolygon(x, y, corners, startX, startY)
  {
    CrossingCountIsCard(RayStart(startX, startY), Point(x, y), corners, |corners|);
  }

  predicate InsideFrom(inside: seq<Point>, outside: seq<Point>, sx: Option<real>, sy: Option<real>, i: nat)
    requires i <= |inside|
    decreases |inside| - i
  {
    if i == |inside| then true
    else if !PointInPolygon(inside[i].x, inside[i].y, outside, sx, sy) then false
    else InsideFrom(inside, outside, sx, sy, i + 1)
  }

  predicate OutsideFrom(inside: seq<Point>, outside: seq<Point>, sx: Option<real>, sy: Option<real>, i: nat)
    requires i <= |inside|
    decreases |inside| - i
  {
    if i == |inside| then true
    else if PointInPolygon(inside[i].x, inside[i].y, outside, sx, sy) then false
    else OutsideFrom(inside, outside, sx, sy, i + 1)
  }

  /** `Utils2D.polygonInsidePolygon` (the start coordinates default to 0). */
  predicate PolygonInsidePolygon(insideCorners: seq<Point>, outsideCorners: seq<Point>, startX: Option<real>, startY: Option<real>) {
    InsideFrom(insideCorners, outsideCorners, startX, startY, 0)
  }

  /** `Utils2D.polygonOutsidePolygon`. */
  predicate PolygonOutsidePolygon(insideCorners: seq<Point>, outsideCorners: seq<Point>, startX: Option<real>, startY: Option<real>) {
    OutsideFrom(insideCorners, outsideCorners, startX, startY, 0)
  }

  lemma {:induction false} InsideOutsideFrom(inside: seq<Point>, outside: seq<Point>, sx: Option<real>, sy: Option<real>, i: nat)
    requires i <= |inside|
    ensures InsideFrom(inside, outside, sx, sy, i)
        <==> forall k :: i <= k < |inside| ==> PointInPolygon(inside[k].x, inside[k].y, outside, sx, sy)
    ensures OutsideFrom(inside, outside, sx, sy, i)
        <==> forall k :: i <= k < |inside| ==> !PointInPolygon(inside[k].x, inside[k].y, outside, sx, sy)
    decreases |inside| - i
  {
    if i < |inside| {
      InsideOutsideFrom(inside, outside, sx, sy, i + 1);
    }
  }

  /** polygonInsidePolygon holds iff every inside corner passes pointInPolygon,
      polygonOutsidePolygon iff none does; both hold for an empty inside list. */
  lemma PolygonContainment(inside: seq<Point>, outside: seq<Point>, sx: Option<real>, sy: Option<real>)
    ensures PolygonInsidePolygon(inside, outside, sx, sy)
        <==> forall k :: 0 <= k < |inside| ==> PointInPolygon(inside[k].x, inside[k].y, outside, sx, sy)
    ensures PolygonOutsidePolygon(inside, outside, sx, sy)
        <==> forall k :: 0 <= k < |inside| ==> !PointInPolygon(inside[k].x, inside[k].y, outside, sx, sy)
    ensures inside == [] ==> PolygonInsidePolygon(inside, outside, sx, sy) && PolygonOutsidePolygon(inside, outside, sx, sy)
  {
    InsideOutsideFrom(inside, outside, sx, sy, 0);
  }
}
