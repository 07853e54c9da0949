/** `smoothed_path`: drops the points of a polyline that crowd the last kept
    one, then draws the polyline with its corners rounded off: a straight line
    into each corner's neighbourhood and a quadratic curve, with the corner as
    control point, out of it. Points are pairs of reals; the `QPainterPath`
    is the sequence of operations appended to it. */
module SmoothedPath {

  /** A `QPointF`. */
  datatype Point = Point(x: real, y: real)

  /** An operation recorded by a `QPainterPath`: `lineTo(to)` or
      `quadTo(ctrl, to)`. */
  datatype PathOp = Line(to: Point) | Quad(ctrl: Point, to: Point)

  /** The radicand of `distance`. */
  function SquaredDistance(p: Point, q: Point): (r: real)
    ensures r >= 0.0
  {
    SquareZero(p.x - q.x);
    SquareZero(p.y - q.y);
    (p.x - q.x) * (p.x - q.x) + (p.y - q.y) * (p.y - q.y)
  }

  lemma SquareZero(a: real)
    ensures a * a >= 0.0
  {
    if a < 0.0 {
      assert a * a == (-a) * (-a);
    }
  }

  /** `distance`: `dist` is the non-negative square root of the squared
      distance, which is what `numpy.sqrt` computes over the reals. */
  ghost predicate IsDistance(dist: (Point, Point) -> real) {
    forall p, q :: dist(p, q) >= 0.0 && dist(p, q) * dist(p, q) == SquaredDistance(p, q)
  }

  lemma SquareRootUnique(a: real, b: real)
    requires a >= 0.0 && b >= 0.0 && a * a == b * b
    ensures a == b
  {
    assert (a - b) * (a + b) == a * a - b * b;
    if a + b != 0.0 {
      assert a - b == 0.0;
    }
  }

  /** The distance is symmetric. */
  lemma DistanceSymmetric(dist: (Point, Point) -> real, p: Point, q: Point)
    requires IsDistance(dist)
    ensures dist(p, q) == dist(q, p)
  {
    assert SquaredDistance(p, q) == SquaredDistance(q, p);
    SquareRootUnique(dist(p, q), dist(q, p));
  }

  /** The distance from a point to itself is zero. */
  lemma DistanceToSelf(dist: (Point, Point) -> real, p: Point)
    requires IsDistance(dist)
    ensures dist(p, p) == 0.0
  {
    assert dist(p, p) * dist(p, p) == 0.0 * 0.0;
    SquareRootUnique(dist(p, p), 0.0);
  }

  /** The ratio shared by `get_line_start` and `get_line_end`: `10 / d`,
      0.5 when `d` is zero, and never more than 0.5. */
  function Ratio(d: real): (r: real)
    ensures r <= 0.5
    ensures 0.0 <= d <= 20.0 ==> r == 0.5
    ensures d >= 20.0 || d < 0.0 ==> r * d == 10.0
  {
    var rat := if d == 0.0 then 0.5 else 10.0 / d;
    if rat > 0.5 then 0.5 else rat
  }

  /** The point a fraction `t` of the way from `a` to `b`. */
  function Along(a: Point, b: Point, t: real): Point {
    Point((1.0 - t) * a.x + t * b.x, (1.0 - t) * a.y + t * b.y)
  }

  /** Twice the signed area of the triangle `a`, `b`, `c`: zero exactly when
      `c` is on the line through `a` and `b` (for `a != b`). */
  function Cross(a: Point, b: Point, c: Point): real {
    (b.x - a.x) * (c.y - a.y) - (b.y - a.y) * (c.x - a.x)
  }

  /** Non-negative exactly when `c` lies on the side of `a` facing `b`. */
  function Dot(a: Point, b: Point, c: Point): real {
    (b.x - a.x) * (c.x - a.x) + (b.y - a.y) * (c.y - a.y)
  }

  lemma AlongGeometry(a: Point, b: Point, t: real)
    ensures Cross(a, b, Along(a, b, t)) == 0.0
    ensures Dot(a, b, Along(a, b, t)) == t * SquaredDistance(a, b)
    ensures SquaredDistance(a, Along(a, b, t)) == t * t * SquaredDistance(a, b)
  {
    var c := Along(a, b, t);
    assert c.x - a.x == t * (b.x - a.x);
    assert c.y - a.y == t * (b.y - a.y);
    assert (a.x - c.x) * (a.x - c.x) == t * t * ((a.x - b.x) * (a.x - b.x));
    assert (a.y - c.y) * (a.y - c.y) == t * t * ((a.y - b.y) * (a.y - b.y));
  }

  /** The point halfway between `a` and `b`. */
  function Midpoint(a: Point, b: Point): Point {
    Point((a.x + b.x) / 2.0, (a.y + b.y) / 2.0)
  }

  /** `get_line_start`: the point a `Ratio` of the way from `p1` to `p2`.
      Whatever `distance` returns, it lies on the line through `p1` and
      `p2`; it is the midpoint when the distance is at most 20, and `p1`
      itself when the two points coincide. */
  function LineStart(dist: (Point, Point) -> real, p1: Point, p2: Point): (r: Point)
    ensures Cross(p1, p2, r) == 0.0
    ensures 0.0 <= dist(p1, p2) <= 20.0 ==> r == Midpoint(p1, p2)
    ensures p1 == p2 ==> r == p1
  {
    Along(p1, p2, Ratio(dist(p1, p2)))
  }

  /** The start point lies on the segment from `p1` to `p2`, 10 units from
      `p1`, or halfway when the segment is shorter than 20, so never past the
      middle; on a degenerate segment it is `p1` itself. */
  lemma LineStartGeometry(dist: (Point, Point) -> real, p1: Point, p2: Point)
    requires IsDistance(dist)
    ensures var r := LineStart(dist, p1, p2);
      Cross(p1, p2, r) == 0.0 && Dot(p1, p2, r) >= 0.0 &&
      SquaredDistance(p1, r) == (if dist(p1, p2) >= 20.0 then 100.0 else SquaredDistance(p1, p2) / 4.0) &&
      SquaredDistance(p1, r) <= SquaredDistance(p1, p2) / 4.0 &&
      (p1 == p2 ==> r == p1)
  {
    var d := dist(p1, p2);
    var rat := Ratio(d);
    AlongGeometry(p1, p2, rat);
    assert d * d == SquaredDistance(p1, p2);
    assert rat * rat * (d * d) == (rat * d) * (rat * d);
    if d >= 20.0 {
      assert d * d >= 20.0 * d >= 400.0;
    }
  }

  /** `get_line_end`: the mirror image of `get_line_start`, measured from
      `p2` towards `p1`. Whatever `distance` returns, it lies on the line
      through the two points; it is the midpoint when the distance is at
      most 20, and `p2` itself when the two points coincide. */
  function LineEnd(dist: (Point, Point) -> real, p1: Point, p2: Point): (r: Point)
    ensures Cross(p2, p1, r) == 0.0
    ensures 0.0 <= dist(p1, p2) <= 20.0 ==> r == Midpoint(p1, p2)
    ensures p1 == p2 ==> r == p2
  {
    var rat := Ratio(dist(p1, p2));
    Point(rat * p1.x + (1.0 - rat) * p2.x, rat * p1.y + (1.0 - rat) * p2.y)
  }

  /** `get_line_end` is `get_line_start` with the two points swapped. */
  lemma LineEndMirrorsStart(dist: (Point, Point) -> real, p1: Point, p2: Point)
    requires IsDistance(dist)
    ensures LineEnd(dist, p1, p2) == LineStart(dist, p2, p1)
  {
    DistanceSymmetric(dist, p1, p2);
  }

  /** So the end point lies on the segment, 10 units from `p2` or halfway,
      and is `p2` itself on a degenerate segment. */
  lemma LineEndGeometry(dist: (Point, Point) -> real, p1: Point, p2: Point)
    requires IsDistance(dist)
    ensures var r := LineEnd(dist, p1, p2);
      Cross(p2, p1, r) == 0.0 && Dot(p2, p1, r) >= 0.0 &&
      SquaredDistance(p2, r) == (if dist(p1, p2) >= 20.0 then 100.0 else SquaredDistance(p1, p2) / 4.0) &&
      SquaredDistance(p2, r) <= SquaredDistance(p1, p2) / 4.0 &&
      (p1 == p2 ==> r == p2)
  {
    DistanceSymmetric(dist, p1, p2);
    LineEndMirrorsStart(dist, p1, p2);
    LineStartGeometry(dist, p2, p1);
    assert SquaredDistance(p2, p1) == SquaredDistance(p1, p2);
  }

  // ---------------------------------------------------------------------
  // The filtering loop.
  // ---------------------------------------------------------------------

  /** `idx` is strictly increasing. */
  ghost predicate Increasing(idx: seq<nat>) {
    forall k, l :: 0 <= k < l < |idx| ==> idx[k] < idx[l]
  }

  /** Each position of `idx` after the first two that is not one of the
      last two points of `input` is at least `factor` from the position
      before it. */
  ghost predicate SpacedOut(dist: (Point, Point) -> real, factor: real, input: seq<Point>, idx: seq<nat>)
    requires forall k :: 0 <= k < |idx| ==> idx[k] < |input|
  {
    forall k :: 2 <= k < |idx| && idx[k] < |input| - 2 ==>
      dist(input[idx[k - 1]], input[idx[k]]) >= factor
  }

  /** The positions of `input` the filtering loop has kept after looking at
      its first `n` points: a point is skipped when two points are kept
      already, it is not one of the last two, and it is closer than `factor`
      to the last kept point. */
  function KeptIndices(dist: (Point, Point) -> real, factor: real, input: seq<Point>, n: nat): (idx: seq<nat>)
    requires n <= |input|
    ensures |idx| <= n && forall k :: 0 <= k < |idx| ==> idx[k] < n
    ensures n >= 1 ==> |idx| >= 1 && idx[0] == 0
    ensures n >= 2 ==> |idx| >= 2 && idx[1] == 1
    decreases n
  {
    if n == 0 then []
    else
      var prev := KeptIndices(dist, factor, input, n - 1);
      var i := n - 1;
      if |prev| > 1 && i < |input| - 2 && dist(input[prev[|prev| - 1]], input[i]) < factor then prev
      else prev + [i]
  }

  /** The points the filtering loop keeps, in input order. */
  function Kept(dist: (Point, Point) -> real, factor: real, input: seq<Point>): (r: seq<Point>)
    ensures var idx := KeptIndices(dist, factor, input, |input|);
      |r| == |idx| && forall k :: 0 <= k < |r| ==> r[k] == input[idx[k]]
  {
    var idx := KeptIndices(dist, factor, input, |input|);
    seq(|idx|, k requires 0 <= k < |idx| => input[idx[k]])
  }

  /** Looking at more points only appends to the kept positions. */
  lemma {:induction false} KeptIndicesPrefix(dist: (Point, Point) -> real, factor: real, input: seq<Point>, n: nat, m: nat)
    requires n <= m <= |input|
    ensures KeptIndices(dist, factor, input, n) <= KeptIndices(dist, factor, input, m)
    decreases m - n
  {
    if n < m {
      KeptIndicesPrefix(dist, factor, input, n, m - 1);
    }
  }

  /** The kept positions are strictly increasing: the kept points stay in
      input order. */
  lemma {:induction false} KeptInOrder(dist: (Point, Point) -> real, factor: real, input: seq<Point>, n: nat)
    requires n <= |input|
    ensures Increasing(KeptIndices(dist, factor, input, n))
  {
    if n > 0 {
      KeptInOrder(dist, factor, input, n - 1);
    }
  }

  /** The last two input points are always kept. */
  lemma KeptLastTwo(dist: (Point, Point) -> real, factor: real, input: seq<Point>, i: nat)
    requires |input| - 2 <= i < |input|
    ensures i in KeptIndices(dist, factor, input, |input|)
  {
    var idx := KeptIndices(dist, factor, input, i + 1);
    assert idx[|idx| - 1] == i;
    KeptIndicesPrefix(dist, factor, input, i + 1, |input|);
    assert KeptIndices(dist, factor, input, |input|)[|idx| - 1] == i;
  }

  /** Every kept point after the first two and before the last two is at
      least `factor` from the point kept before it. */
  lemma {:induction false} KeptFar(dist: (Point, Point) -> real, factor: real, input: seq<Point>, n: nat)
    requires n <= |input|
    ensures SpacedOut(dist, factor, input, KeptIndices(dist, factor, input, n))
  {
    if n > 0 {
      KeptFar(dist, factor, input, n - 1);
      var prev := KeptIndices(dist, factor, input, n - 1);
      var idx := KeptIndices(dist, factor, input, n);
      if idx != prev {
        assert idx == prev + [n - 1];
        forall k | 2 <= k < |idx| && idx[k] < |input| - 2
          ensures dist(input[idx[k - 1]], input[idx[k]]) >= factor
        {
          if k == |idx| - 1 {
            assert idx[k] == n - 1 && |prev| > 1 && idx[k - 1] == prev[|prev| - 1];
            assert !(dist(input[prev[|prev| - 1]], input[n - 1]) < factor);
          } else {
            assert idx[k - 1] == prev[k - 1] && idx[k] == prev[k];
          }
        }
      }
    }
  }

  /** Every point that is dropped lies between the first two and the last
      two, and is closer than `factor` to the point last kept before it. */
  lemma KeptDropsOnlyNear(dist: (Point, Point) -> real, factor: real, input: seq<Point>, i: nat)
    requires i < |input|
    requires i !in KeptIndices(dist, factor, input, |input|)
    ensures 2 <= i < |input| - 2
    ensures var before := KeptIndices(dist, factor, input, i);
      |before| >= 2 && dist(input[before[|before| - 1]], input[i]) < factor
  {
    KeptIndicesPrefix(dist, factor, input, i + 1, |input|);
    var after := KeptIndices(dist, factor, input, i + 1);
    var all := KeptIndices(dist, factor, input, |input|);
    assert i !in after by {
      forall k | 0 <= k < |after|
        ensures after[k] != i
      {
        assert after[k] == all[k];
      }
    }
  }

  /** At least three points survive the filter exactly when there were at
      least three to begin with. */
  lemma KeptAtLeastThree(dist: (Point, Point) -> real, factor: real, input: seq<Point>)
    ensures |Kept(dist, factor, input)| >= 3 <==> |input| >= 3
    ensures |input| < 3 ==> Kept(dist, factor, input) == input
  {
    var idx := KeptIndices(dist, factor, input, |input|);
    if |input| >= 3 {
      KeptLastTwo(dist, factor, input, |input| - 1);
      var k :| 0 <= k < |idx| && idx[k] == |input| - 1;
      assert k >= 2;
    } else if |input| > 0 {
      assert Kept(dist, factor, input)[0] == input[0];
    }
  }

  /** The filtering loop of `smoothed_path`. */
  method KeepPoints(dist: (Point, Point) -> real, factor: real, input: seq<Point>) returns (points: seq<Point>)
    ensures points == Kept(dist, factor, input)
  {
    points := [];
    ghost var idx: seq<nat> := [];
    var count := |input|;
    for i := 0 to count
      invariant idx == KeptIndices(dist, factor, input, i)
      invariant |points| == |idx| && forall k :: 0 <= k < |idx| ==> points[k] == input[idx[k]]
    {
      var p := input[i];
      if |points| > 1 && i < count - 2 && dist(points[|points| - 1], p) < factor {
        continue;
      }
      points := points + [p];
      idx := idx + [i];
    }
  }

  // ---------------------------------------------------------------------
  // The emission loop.
  // ---------------------------------------------------------------------

  /** The point after `points[i]`, or `points[i]` itself for the last one. */
  function Next(points: seq<Point>, i: nat): Point
    requires i < |points|
  {
    if i == |points| - 1 then points[i] else points[i + 1]
  }

  /** The two operations the emission loop appends for `points[i]`. */
  function OpsAt(dist: (Point, Point) -> real, points: seq<Point>, i: nat): seq<PathOp>
    requires i < |points|
  {
    var p1 := Next(points, i);
    var pt1 := LineStart(dist, points[i], p1);
    [if i == 0 then Line(pt1) else Quad(points[i], pt1), Line(LineEnd(dist, points[i], p1))]
  }

  /** The operations appended for the first `n` points. */
  function SmoothOps(dist: (Point, Point) -> real, points: seq<Point>, n: nat): (ops: seq<PathOp>)
    requires n <= |points|
    ensures |ops| == 2 * n
  {
    if n == 0 then [] else SmoothOps(dist, points, n - 1) + OpsAt(dist, points, n - 1)
  }

  /** Each point contributes two operations, in order: a `lineTo` for the
      first point and a `quadTo` around the point itself for every other,
      then a `lineTo`. */
  lemma {:induction false} SmoothOpsLayout(dist: (Point, Point) -> real, points: seq<Point>, n: nat, i: nat)
    requires i < n <= |points|
    ensures var ops := SmoothOps(dist, points, n);
      var start := LineStart(dist, points[i], Next(points, i));
      ops[2 * i] == (if i == 0 then Line(start) else Quad(points[i], start)) &&
      ops[2 * i + 1] == Line(LineEnd(dist, points[i], Next(points, i)))
    decreases n
  {
    if i < n - 1 {
      SmoothOpsLayout(dist, points, n - 1, i);
    }
  }

  /** How many `quadTo` operations a path holds. */
  function QuadCount(ops: seq<PathOp>): nat {
    if ops == [] then 0 else QuadCount(ops[..|ops| - 1]) + (if ops[|ops| - 1].Quad? then 1 else 0)
  }

  lemma {:induction false} QuadCountAppend(a: seq<PathOp>, b: seq<PathOp>)
    ensures QuadCount(a + b) == QuadCount(a) + QuadCount(b)
    decreases |b|
  {
    if b == [] {
      assert a + b == a;
    } else {
      assert (a + b)[..|a + b| - 1] == a + b[..|b| - 1];
      QuadCountAppend(a, b[..|b| - 1]);
    }
  }

  /** `n` points give `n - 1` curves, one around every point but the
      first. */
  lemma {:induction false} SmoothOpsQuadCount(dist: (Point, Point) -> real, points: seq<Point>, n: nat)
    requires 1 <= n <= |points|
    ensures QuadCount(SmoothOps(dist, points, n)) == n - 1
  {
    var ops := OpsAt(dist, points, n - 1);
    assert QuadCount(ops) == (if n - 1 == 0 then 0 else 1) by {
      assert ops[..|ops| - 1] == [ops[0]] && !ops[1].Quad?;
      assert [ops[0]][..0] == [];
      assert QuadCount([ops[0]]) == QuadCount([]) + (if ops[0].Quad? then 1 else 0);
    }
    QuadCountAppend(SmoothOps(dist, points, n - 1), ops);
    if n > 1 {
      SmoothOpsQuadCount(dist, points, n - 1);
    }
  }

  /** The path ends exactly on the last point. */
  lemma SmoothOpsEndOnLastPoint(dist: (Point, Point) -> real, points: seq<Point>)
    requires IsDistance(dist) && |points| >= 1
    ensures var ops := SmoothOps(dist, points, |points|);
      ops[|ops| - 1] == Line(points[|points| - 1])
  {
    var last := points[|points| - 1];
    LineEndGeometry(dist, last, last);
    SmoothOpsLayout(dist, points, |points|, |points| - 1);
  }

  /** The corners are rounded without a kink: each curve starts on the
      segment coming into its control point, where the line before it
      stopped, and ends on the segment going out of it. */
  lemma SmoothOpsTangent(dist: (Point, Point) -> real, points: seq<Point>, i: nat)
    requires IsDistance(dist) && 1 <= i < |points|
    ensures var ops := SmoothOps(dist, points, |points|);
      ops[2 * i].Quad? && ops[2 * i].ctrl == points[i] &&
      ops[2 * i - 1].Line? &&
      Cross(points[i], points[i - 1], ops[2 * i - 1].to) == 0.0 &&
      Dot(points[i], points[i - 1], ops[2 * i - 1].to) >= 0.0 &&
      Cross(points[i], Next(points, i), ops[2 * i].to) == 0.0 &&
      Dot(points[i], Next(points, i), ops[2 * i].to) >= 0.0
  {
    SmoothOpsLayout(dist, points, |points|, i - 1);
    SmoothOpsLayout(dist, points, |points|, i);
    assert Next(points, i - 1) == points[i];
    LineEndGeometry(dist, points[i - 1], points[i]);
    LineStartGeometry(dist, points[i], Next(points, i));
  }

  /** A `QPainterPath`, as the operations drawn on it so far. */
  class PainterPath {
    var ops: seq<PathOp>

    constructor (ops0: seq<PathOp>)
      ensures ops == ops0
    {
      ops := ops0;
    }

    /** `lineTo(to)`. */
    method LineTo(to: Point)
      modifies this
      ensures ops == old(ops) + [Line(to)]
    {
      ops := ops + [Line(to)];
    }

    /** `quadTo(ctrl, to)`. */
    method QuadTo(ctrl: Point, to: Point)
      modifies this
      ensures ops == old(ops) + [Quad(ctrl, to)]
    {
      ops := ops + [Quad(ctrl, to)];
    }
  }

  /** The emission loop of `smoothed_path`, drawing on `path`. */
  method AppendSmoothed(dist: (Point, Point) -> real, points: seq<Point>, path: PainterPath)
    modifies path
    ensures path.ops == old(path.ops) + SmoothOps(dist, points, |points|)
  {
    for i := 0 to |points|
      invariant path.ops == old(path.ops) + SmoothOps(dist, points, i)
    {
      var p := points[i];
      var p1 := if i == |points| - 1 then p else points[i + 1];
      var pt1 := LineStart(dist, p, p1);
      if i == 0 {
        path.LineTo(pt1);
      } else {
        path.QuadTo(points[i], pt1);
      }
      var pt2 := LineEnd(dist, points[i], p1);
      path.LineTo(pt2);
    }
  }

  /** `smoothed_path(factor, points_input, path)`: with fewer than three
      input points the path is left as it was; otherwise it gains two
      operations per kept point, as laid out by `SmoothOps`. The source
      returns `path` itself, so the caller's object is the result. */
  method Smooth(dist: (Point, Point) -> real, factor: real, input: seq<Point>, path: PainterPath)
    modifies path
    ensures |input| < 3 ==> path.ops == old(path.ops)
    ensures |input| >= 3 ==>
      var kept := Kept(dist, factor, input);
      path.ops == old(path.ops) + SmoothOps(dist, kept, |kept|) &&
      |path.ops| == |old(path.ops)| + 2 * |kept|
  {
    var points := KeepPoints(dist, factor, input);
    KeptAtLeastThree(dist, factor, input);
    if |points| < 3 {
      return;
    }
    AppendSmoothed(dist, points, path);
  }
}
