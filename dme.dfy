/**
 * The linear planar deferred-merge embedding (dme.hpp:12-193): candidate
 * points around a centre, the radius and centre of a point set, and the
 * recursive bisection that emits one rounded merging point per internal
 * node of the implied binary tree.
 */
module Dme {
  import opened Numerics
  import opened Structures
  import opened Sorting
  import opened Utilities

  // ---------------------------------------------------------------------
  // Candidate points, radius and centre
  // ---------------------------------------------------------------------

  /** The Manhattan distance between two points, the `distance` of tree.hpp:239-241. */
  function PointDistance(a: Point, b: Point): (r: real)
    ensures r >= 0.0
    ensures r == 0.0 <==> a.x == b.x && a.y == b.y
  {
    AbsR(a.x - b.x) + AbsR(a.y - b.y)
  }

  /**
   * `findPoints`: the four points at offset `d` to the right of, left of,
   * above and below (x1, y1), in that order, each at Manhattan distance |d|.
   */
  function FindPoints(x1: real, y1: real, d: real): (r: seq<Point>)
    ensures |r| == 4
    ensures forall k :: 0 <= k < 4 ==> PointDistance(r[k], At(x1, y1)) == AbsR(d) && r[k].clusterId == UNVISITED
    ensures r[0].y == y1 && r[0].x - x1 == d && r[1].y == y1 && x1 - r[1].x == d
    ensures r[2].x == x1 && r[2].y - y1 == d && r[3].x == x1 && y1 - r[3].y == d
  {
    [At(x1 + d, y1), At(x1 - d, y1), At(x1, y1 + d), At(x1, y1 - d)]
  }

  /** The largest distance from `p` to a point of `rest`, or 0 when `rest` is empty. */
  function FarthestFrom(p: Point, rest: seq<Point>): (r: real)
    ensures r >= 0.0
  {
    if |rest| == 0 then 0.0 else MaxR(PointDistance(p, rest[0]), FarthestFrom(p, rest[1..]))
  }

  /** The largest pairwise distance, starting from 0 as the source's running maximum does. */
  function Diameter(s: seq<Point>): (r: real)
    ensures r >= 0.0
  {
    if |s| < 2 then 0.0 else MaxR(FarthestFrom(s[0], s[1..]), Diameter(s[1..]))
  }

  /** `radius`: half the diameter. */
  function Radius(s: seq<Point>): (r: real)
  {
    Diameter(s) / 2.0
  }

  lemma {:induction false} FarthestFromBounds(p: Point, rest: seq<Point>)
    ensures forall j :: 0 <= j < |rest| ==> PointDistance(p, rest[j]) <= FarthestFrom(p, rest)
    ensures |rest| > 0 ==> exists j :: 0 <= j < |rest| && PointDistance(p, rest[j]) == FarthestFrom(p, rest)
  {
    if |rest| > 0 {
      FarthestFromBounds(p, rest[1..]);
      if FarthestFrom(p, rest) != PointDistance(p, rest[0]) {
        var j :| 0 <= j < |rest[1..]| && PointDistance(p, rest[1..][j]) == FarthestFrom(p, rest[1..]);
        assert PointDistance(p, rest[1 + j]) == FarthestFrom(p, rest);
      }
      forall j | 1 <= j < |rest|
        ensures PointDistance(p, rest[j]) <= FarthestFrom(p, rest)
      {
        assert rest[j] == rest[1..][j - 1];
      }
    }
  }

  /** No pair of points is further apart than the diameter. */
  lemma {:induction false} DiameterBounds(s: seq<Point>)
    ensures forall i, j :: 0 <= i < j < |s| ==> PointDistance(s[i], s[j]) <= Diameter(s)
  {
    if |s| >= 2 {
      DiameterBounds(s[1..]);
      FarthestFromBounds(s[0], s[1..]);
      forall i, j | 0 <= i < j < |s|
        ensures PointDistance(s[i], s[j]) <= Diameter(s)
      {
        if i == 0 {
          assert s[j] == s[1..][j - 1];
        } else {
          assert s[i] == s[1..][i - 1] && s[j] == s[1..][j - 1];
        }
      }
    }
  }

  /** With two or more points some pair is exactly a diameter apart. */
  lemma {:induction false} DiameterAttained(s: seq<Point>)
    requires |s| >= 2
    ensures exists i, j :: 0 <= i < j < |s| && PointDistance(s[i], s[j]) == Diameter(s)
  {
    FarthestFromBounds(s[0], s[1..]);
    if Diameter(s) == FarthestFrom(s[0], s[1..]) {
      var j :| 0 <= j < |s[1..]| && PointDistance(s[0], s[1..][j]) == FarthestFrom(s[0], s[1..]);
      assert PointDistance(s[0], s[1 + j]) == Diameter(s);
    } else {
      DiameterAttained(s[1..]);
      var i, j :| 0 <= i < j < |s[1..]| && PointDistance(s[1..][i], s[1..][j]) == Diameter(s[1..]);
      assert PointDistance(s[1 + i], s[1 + j]) == Diameter(s);
    }
  }

  /**
   * The radius is half the largest pairwise distance: it bounds every pair
   * and, for two or more points, some pair attains it; it is 0 for fewer
   * than two points.
   */
  lemma RadiusIsHalfDiameter(s: seq<Point>)
    ensures forall i, j :: 0 <= i < j < |s| ==> PointDistance(s[i], s[j]) <= 2.0 * Radius(s)
    ensures |s| >= 2 ==> exists i, j :: 0 <= i < j < |s| && PointDistance(s[i], s[j]) == 2.0 * Radius(s)
    ensures |s| < 2 ==> Radius(s) == 0.0
  {
    DiameterBounds(s);
    if |s| >= 2 {
      DiameterAttained(s);
    }
  }

  /** Every pair whose first point comes before row `i` is at most `m` apart. */
  predicate RowsBelow(s: seq<Point>, i: int, m: real)
  {
    forall a, b :: 0 <= a < i && a < b < |s| ==> PointDistance(s[a], s[b]) <= m
  }

  /** `m` is 0 or the distance of some pair. */
  predicate PairOrZero(s: seq<Point>, m: real)
  {
    m == 0.0 || exists a, b :: 0 <= a < b < |s| && PointDistance(s[a], s[b]) == m
  }

  /** The pairs (i, b) with i < b < j are at most `m` apart. */
  predicate RowBelow(s: seq<Point>, i: int, j: int, m: real)
    requires 0 <= i < |s|
  {
    forall b :: i < b < j && b < |s| ==> PointDistance(s[i], s[b]) <= m
  }

  /** Finishing row `i` extends the bound to row i + 1. */
  lemma RowDone(s: seq<Point>, i: int, m: real)
    requires 0 <= i < |s| && RowsBelow(s, i, m) && RowBelow(s, i, |s|, m)
    ensures RowsBelow(s, i + 1, m)
  {
  }

  /** A pair within the bound extends the row. */
  lemma Kept(s: seq<Point>, i: int, j: int, m: real)
    requires 0 <= i < j < |s| && RowBelow(s, i, j, m) && PointDistance(s[i], s[j]) <= m
    ensures RowBelow(s, i, j + 1, m)
  {
  }

  /** A larger distance found at (i, j) becomes the bound of everything seen so far, and it is attained. */
  lemma Raised(s: seq<Point>, i: int, j: int, m: real)
    requires 0 <= i < j < |s| && RowsBelow(s, i, m) && RowBelow(s, i, j, m)
    requires PointDistance(s[i], s[j]) > m
    ensures var d := PointDistance(s[i], s[j]);
      RowsBelow(s, i, d) && RowBelow(s, i, j + 1, d) && PairOrZero(s, d)
  {
  }

  /** A bound on every pair that is 0 or attained is the diameter. */
  lemma MaxIsDiameter(s: seq<Point>, m: real)
    requires RowsBelow(s, |s|, m) && PairOrZero(s, m) && m >= 0.0
    ensures m == Diameter(s)
  {
    DiameterBounds(s);
    if |s| >= 2 {
      DiameterAttained(s);
    }
  }

  /**
   * `radius`: the running maximum over every pair i < j, halved. The
   * maximum starts at 0 and is replaced only by a strictly larger distance.
   */
  method ComputeRadius(s: seq<Point>) returns (r: real)
    ensures r == Radius(s)
  {
    var maxDist := 0.0;
    for i := 0 to |s|
      invariant maxDist >= 0.0 && RowsBelow(s, i, maxDist) && PairOrZero(s, maxDist)
    {
      for j := i + 1 to |s|
        invariant maxDist >= 0.0 && RowsBelow(s, i, maxDist) && PairOrZero(s, maxDist)
        invariant RowBelow(s, i, j, maxDist)
      {
        var d := PointDistance(s[i], s[j]);
        if d > maxDist {
          Raised(s, i, j, maxDist);
          maxDist := d;
        } else {
          Kept(s, i, j, maxDist);
        }
      }
      RowDone(s, i, maxDist);
    }
    MaxIsDiameter(s, maxDist);
    r := maxDist / 2.0;
  }

  /** The truncated x (or y) coordinates, as `(int)sink.x` reads them. */
  function TruncXs(s: seq<Point>): (r: seq<int>)
    ensures |r| == |s| && forall k :: 0 <= k < |s| ==> r[k] == Trunc(s[k].x)
  {
    seq(|s|, k requires 0 <= k < |s| => Trunc(s[k].x))
  }

  function TruncYs(s: seq<Point>): (r: seq<int>)
    ensures |r| == |s| && forall k :: 0 <= k < |s| ==> r[k] == Trunc(s[k].y)
  {
    seq(|s|, k requires 0 <= k < |s| => Trunc(s[k].y))
  }

  function MinOf(v: seq<int>): int
    requires |v| > 0
  {
    if |v| == 1 then v[0] else MinI(v[0], MinOf(v[1..]))
  }

  function MaxOf(v: seq<int>): int
    requires |v| > 0
  {
    if |v| == 1 then v[0] else MaxI(v[0], MaxOf(v[1..]))
  }

  lemma {:induction false} MinMaxOfBound(v: seq<int>)
    requires |v| > 0
    ensures MinOf(v) <= MaxOf(v)
    ensures forall k :: 0 <= k < |v| ==> MinOf(v) <= v[k] <= MaxOf(v)
  {
    if |v| > 1 {
      MinMaxOfBound(v[1..]);
      forall k | 1 <= k < |v|
        ensures MinOf(v) <= v[k] <= MaxOf(v)
      {
        assert v[k] == v[1..][k - 1];
      }
    }
  }

  /** `std::round` of the midpoint of two integers lies between them. */
  lemma RoundMidpointBetween(a: int, b: int)
    requires a <= b
    ensures a <= Round((a + b) as real / 2.0) <= b
  {
  }

  /**
   * `center`: (0, 0) for no points, the point itself for one, and otherwise
   * the rounded midpoint of the bounding box of the truncated coordinates
   * (the radius argument of the source is not used).
   */
  function Center(s: seq<Point>): (c: Point)
    ensures c.clusterId == UNVISITED
    ensures |s| == 0 ==> c.x == 0.0 && c.y == 0.0
    ensures |s| == 1 ==> c.x == s[0].x && c.y == s[0].y
  {
    if |s| == 0 then At(0.0, 0.0)
    else if |s| == 1 then At(s[0].x, s[0].y)
    else
      var xs, ys := TruncXs(s), TruncYs(s);
      At(Round((MinOf(xs) + MaxOf(xs)) as real / 2.0) as real, Round((MinOf(ys) + MaxOf(ys)) as real / 2.0) as real)
  }

  /** The least and the greatest element are elements. */
  lemma {:induction false} MinMaxOfAttained(v: seq<int>)
    requires |v| > 0
    ensures MinOf(v) in v && MaxOf(v) in v
  {
    if |v| > 1 {
      MinMaxOfAttained(v[1..]);
    }
  }

  /** `lo` and `hi` are elements of `v` bounding its first `k` elements. */
  predicate Box(v: seq<int>, k: int, lo: int, hi: int)
  {
    lo in v && hi in v && forall j :: 0 <= j < k && j < |v| ==> lo <= v[j] <= hi
  }

  lemma BoxStep(v: seq<int>, k: int, lo: int, hi: int)
    requires 0 <= k < |v| && Box(v, k, lo, hi)
    ensures Box(v, k + 1, MinI(lo, v[k]), MaxI(hi, v[k]))
  {
  }

  /** Bounds on every element that are elements are the least and the greatest. */
  lemma BoxIsMinMax(v: seq<int>, lo: int, hi: int)
    requires |v| > 0 && Box(v, |v|, lo, hi)
    ensures lo == MinOf(v) && hi == MaxOf(v)
  {
    MinMaxOfBound(v);
    MinMaxOfAttained(v);
  }

  /**
   * The loop of `center`: the bounding box of the truncated coordinates
   * starts at the first point and widens over every point.
   */
  method BoundingBox(s: seq<Point>) returns (minX: int, maxX: int, minY: int, maxY: int)
    requires |s| > 0
    ensures minX == MinOf(TruncXs(s)) && maxX == MaxOf(TruncXs(s))
    ensures minY == MinOf(TruncYs(s)) && maxY == MaxOf(TruncYs(s))
  {
    ghost var xs, ys := TruncXs(s), TruncYs(s);
    minX, maxX := Trunc(s[0].x), Trunc(s[0].x);
    minY, maxY := Trunc(s[0].y), Trunc(s[0].y);
    assert xs[0] == minX && ys[0] == minY;
    for k := 0 to |s|
      invariant Box(xs, k, minX, maxX) && Box(ys, k, minY, maxY)
    {
      BoxStep(xs, k, minX, maxX);
      BoxStep(ys, k, minY, maxY);
      minX := MinI(minX, Trunc(s[k].x));
      maxX := MaxI(maxX, Trunc(s[k].x));
      minY := MinI(minY, Trunc(s[k].y));
      maxY := MaxI(maxY, Trunc(s[k].y));
    }
    BoxIsMinMax(xs, minX, maxX);
    BoxIsMinMax(ys, minY, maxY);
  }

  /** `center`: (0, 0), the single point, or the rounded middle of the bounding box. */
  method ComputeCenter(s: seq<Point>) returns (c: Point)
    ensures c == Center(s)
  {
    if |s| == 0 {
      return At(0.0, 0.0);
    }
    if |s| == 1 {
      return At(s[0].x, s[0].y);
    }
    var minX, maxX, minY, maxY := BoundingBox(s);
    c := At(Round((minX + maxX) as real / 2.0) as real, Round((minY + maxY) as real / 2.0) as real);
  }

  /** For two or more points the centre is a grid point inside their (truncated) bounding box. */
  lemma CenterInsideBox(s: seq<Point>)
    requires |s| >= 2
    ensures IsIntegral(Center(s).x) && IsIntegral(Center(s).y)
    ensures MinOf(TruncXs(s)) as real <= Center(s).x <= MaxOf(TruncXs(s)) as real
    ensures MinOf(TruncYs(s)) as real <= Center(s).y <= MaxOf(TruncYs(s)) as real
  {
    var xs, ys := TruncXs(s), TruncYs(s);
    MinMaxOfBound(xs);
    MinMaxOfBound(ys);
    RoundMidpointBetween(MinOf(xs), MaxOf(xs));
    RoundMidpointBetween(MinOf(ys), MaxOf(ys));
  }

  // ---------------------------------------------------------------------
  // The bisection of linear_planar_dme_sub
  // ---------------------------------------------------------------------

  /** The four ways of cutting a point set around the merging point. */
  datatype Rule = XRule | YRule | DiagonalRule | QuadrantRule

  /** Whether `p` goes to the first half under `rule`, around merging point `ms`. */
  predicate Keeps(rule: Rule, ms: Point, p: Point)
  {
    match rule
    case XRule => p.x <= ms.x
    case YRule => p.y <= ms.y
    case DiagonalRule => p.x + p.y <= ms.x + ms.y
    case QuadrantRule => (p.x <= ms.x && p.y <= ms.y) || (p.x > ms.x && p.y > ms.y)
  }

  /** The points of `s`, in order, that `rule` sends to the first half (`first`) or to the second. */
  function Side(s: seq<Point>, rule: Rule, ms: Point, first: bool): (r: seq<Point>)
    ensures |r| <= |s|
  {
    if |s| == 0 then []
    else
      var rest := Side(s[..|s| - 1], rule, ms, first);
      if Keeps(rule, ms, s[|s| - 1]) == first then rest + [s[|s| - 1]] else rest
  }

  lemma {:induction false} SidesPartition(s: seq<Point>, rule: Rule, ms: Point)
    ensures |Side(s, rule, ms, true)| + |Side(s, rule, ms, false)| == |s|
    ensures multiset(Side(s, rule, ms, true)) + multiset(Side(s, rule, ms, false)) == multiset(s)
  {
    if |s| > 0 {
      SidesPartition(s[..|s| - 1], rule, ms);
      assert s == s[..|s| - 1] + [s[|s| - 1]];
    }
  }

  lemma {:induction false} SideMembers(s: seq<Point>, rule: Rule, ms: Point, first: bool)
    ensures forall p :: p in Side(s, rule, ms, first) <==> p in s && Keeps(rule, ms, p) == first
  {
    if |s| > 0 {
      SideMembers(s[..|s| - 1], rule, ms, first);
      assert s == s[..|s| - 1] + [s[|s| - 1]];
    }
  }

  /** Every point of `s` sits at the (x, y) of its first point. */
  predicate Identical(s: seq<Point>)
    requires |s| > 0
  {
    forall k :: 0 <= k < |s| ==> s[k].x == s[0].x && s[k].y == s[0].y
  }

  /** The sort key of the last fallback, x + y. */
  function SumKey(p: Point): real
  {
    p.x + p.y
  }

  /** Both halves are non-empty. */
  predicate Separates(h: (seq<Point>, seq<Point>))
  {
    |h.0| > 0 && |h.1| > 0
  }

  function Cut(s: seq<Point>, rule: Rule, ms: Point): (h: (seq<Point>, seq<Point>))
    ensures |h.0| + |h.1| == |s|
  {
    SidesPartition(s, rule, ms);
    (Side(s, rule, ms, true), Side(s, rule, ms, false))
  }

  /** The second attempt of the non-identical case: x, then y when x leaves a side empty. */
  function AxisCut(s: seq<Point>, ms: Point): (h: (seq<Point>, seq<Point>))
    ensures |h.0| + |h.1| == |s|
  {
    var byX := Cut(s, XRule, ms);
    if Separates(byX) then byX else Cut(s, YRule, ms)
  }

  /** The last resort: sort by x + y and split at the middle. */
  function EvenCut(s: seq<Point>): (h: (seq<Point>, seq<Point>))
    requires |s| >= 2
    ensures |h.0| + |h.1| == |s| && Separates(h)
  {
    var sorted := SortBy(s, SumKey);
    (sorted[..|s| / 2], sorted[|s| / 2..])
  }

  /**
   * How `linear_planar_dme_sub` divides S' (two or more points) around `ms`:
   * coincident points split at |S'|/2; otherwise the first of the x, y,
   * diagonal and quadrant cuts that leaves both halves non-empty, and as a
   * last resort the even split of the list sorted by x + y.
   */
  function Halves(s: seq<Point>, ms: Point): (h: (seq<Point>, seq<Point>))
    requires |s| >= 2
    ensures Separates(h) && |h.0| + |h.1| == |s|
  {
    if Identical(s) then (s[..|s| / 2], s[|s| / 2..])
    else
      var axis := AxisCut(s, ms);
      if Separates(axis) then axis
      else
        var diagonal := Cut(s, DiagonalRule, ms);
        if Separates(diagonal) then diagonal
        else
          var quadrant := Cut(s, QuadrantRule, ms);
          if Separates(quadrant) then quadrant else EvenCut(s)
  }

  /** The halves are a reordering of S', so no point is lost or duplicated. */
  lemma HalvesPermutation(s: seq<Point>, ms: Point)
    requires |s| >= 2
    ensures multiset(Halves(s, ms).0) + multiset(Halves(s, ms).1) == multiset(s)
  {
    var h := Halves(s, ms);
    if Identical(s) {
      assert s == s[..|s| / 2] + s[|s| / 2..];
    } else if h == Cut(s, XRule, ms) {
      SidesPartition(s, XRule, ms);
    } else if h == Cut(s, YRule, ms) {
      SidesPartition(s, YRule, ms);
    } else if h == Cut(s, DiagonalRule, ms) {
      SidesPartition(s, DiagonalRule, ms);
    } else if h == Cut(s, QuadrantRule, ms) {
      SidesPartition(s, QuadrantRule, ms);
    } else {
      var sorted := SortBy(s, SumKey);
      assert h == EvenCut(s);
      assert sorted == sorted[..|s| / 2] + sorted[|s| / 2..];
    }
  }

  /** The merging point of S': the rounded centre. */
  function MergingPoint(s: seq<Point>): Point
  {
    RoundCoordinates(Center(s))
  }

  /**
   * The points `linear_planar_dme_sub(S')` appends: nothing for one point,
   * otherwise the merging point followed by those of the two halves.
   */
  function SubPoints(s: seq<Point>): (r: seq<Point>)
    requires |s| >= 1
    ensures |r| == |s| - 1
    decreases |s|
  {
    if |s| == 1 then []
    else
      var ms := MergingPoint(s);
      var h := Halves(s, ms);
      [ms] + SubPoints(h.0) + SubPoints(h.1)
  }

  /** Every point of `s` is its own rounding. */
  predicate Rounded(s: seq<Point>)
  {
    forall k :: 0 <= k < |s| ==> s[k] == RoundCoordinates(s[k])
  }

  /** A rounded point followed by two rounded lists is rounded. */
  lemma RoundedJoin(ms: Point, a: seq<Point>, b: seq<Point>)
    requires ms == RoundCoordinates(ms) && Rounded(a) && Rounded(b)
    ensures Rounded([ms] + a + b)
  {
    var r := [ms] + a + b;
    forall k | 0 <= k < |r|
      ensures r[k] == RoundCoordinates(r[k])
    {
      if k == 0 {
      } else if k < 1 + |a| {
        assert r[k] == a[k - 1];
      } else {
        assert r[k] == b[k - 1 - |a|];
      }
    }
  }

  /** Every emitted point is already rounded, so rounding it again changes nothing. */
  lemma {:induction false} SubPointsRounded(s: seq<Point>)
    requires |s| >= 1
    ensures Rounded(SubPoints(s))
    decreases |s|
  {
    if |s| > 1 {
      var ms := MergingPoint(s);
      var h := Halves(s, ms);
      RoundTwice(Center(s));
      SubPointsRounded(h.0);
      SubPointsRounded(h.1);
      SubPointsSplit(s);
      RoundedJoin(ms, SubPoints(h.0), SubPoints(h.1));
    }
  }

  /** Rounding an already rounded point changes nothing. */
  lemma RoundTwice(p: Point)
    ensures RoundCoordinates(RoundCoordinates(p)) == RoundCoordinates(p)
  {
    RoundCoordinatesNear(RoundCoordinates(p));
  }

  /**
   * `linear_planar_dme_sub`: appends to `treePoints` the merging point of S'
   * and, recursively, those of its halves. S' must not be empty (the source
   * reads its first element).
   */
  method LinearPlanarDmeSub(s: seq<Point>, treePoints: seq<Point>) returns (out: seq<Point>)
    requires |s| >= 1
    ensures out == treePoints + SubPoints(s)
    decreases |s|
  {
    if |s| == 1 {
      return treePoints;
    }
    var rPrime := ComputeRadius(s);
    var centre := ComputeCenter(s);
    var ms := RoundCoordinates(centre);
    out := treePoints + [ms];
    var s1, s2 := DivideAround(s, ms);
    SubPointsSplit(s);
    out := LinearPlanarDmeSub(s1, out);
    out := LinearPlanarDmeSub(s2, out);
    AppendAssociative(treePoints, [ms], SubPoints(s1));
    AppendAssociative(treePoints, [ms] + SubPoints(s1), SubPoints(s2));
  }

  /** One step of `SubPoints`: the merging point, then the halves' points. */
  lemma SubPointsSplit(s: seq<Point>)
    requires |s| >= 2
    ensures var h := Halves(s, MergingPoint(s));
      SubPoints(s) == [MergingPoint(s)] + SubPoints(h.0) + SubPoints(h.1)
  {
  }

  /** The partitioning part of `linear_planar_dme_sub`, with its fallbacks. */
  method DivideAround(s: seq<Point>, ms: Point) returns (s1: seq<Point>, s2: seq<Point>)
    requires |s| >= 2
    ensures (s1, s2) == Halves(s, ms)
  {
    var identical := AllIdentical(s);
    if identical {
      s1, s2 := s[..|s| / 2], s[|s| / 2..];
      return;
    }
    s1, s2 := SplitBy(s, XRule, ms);
    if |s1| == 0 || |s2| == 0 {
      s1, s2 := SplitBy(s, YRule, ms);
    }
    assert (s1, s2) == AxisCut(s, ms);
    if |s1| == 0 || |s2| == 0 {
      s1, s2 := SplitBy(s, DiagonalRule, ms);
      if |s1| == 0 || |s2| == 0 {
        s1, s2 := SplitBy(s, QuadrantRule, ms);
        if |s1| == 0 || |s2| == 0 {
          var sorted := SortBy(s, SumKey);
          var mid := |sorted| / 2;
          s1, s2 := sorted[..mid], sorted[mid..];
        }
      }
    }
  }

  /** The scan for coincident points, which stops at the first point elsewhere. */
  method AllIdentical(s: seq<Point>) returns (identical: bool)
    requires |s| > 0
    ensures identical == Identical(s)
  {
    identical := true;
    var first := s[0];
    var i := 0;
    while i < |s|
      invariant 0 <= i <= |s|
      invariant identical ==> forall k :: 0 <= k < i ==> s[k].x == first.x && s[k].y == first.y
      invariant !identical ==> !Identical(s)
    {
      if s[i].x != first.x || s[i].y != first.y {
        identical := false;
        break;
      }
      i := i + 1;
    }
  }

  lemma AppendAssociative(a: seq<Point>, b: seq<Point>, c: seq<Point>)
    ensures a + b + c == a + (b + c)
  {
  }

  /** One cut's push_back loop: each point goes to the first half or the second, in order. */
  method SplitBy(s: seq<Point>, rule: Rule, ms: Point) returns (s1: seq<Point>, s2: seq<Point>)
    ensures (s1, s2) == Cut(s, rule, ms)
  {
    s1, s2 := [], [];
    for i := 0 to |s|
      invariant s1 == Side(s[..i], rule, ms, true) && s2 == Side(s[..i], rule, ms, false)
    {
      assert s[..i + 1][..i] == s[..i];
      if Keeps(rule, ms, s[i]) {
        s1 := s1 + [s[i]];
      } else {
        s2 := s2 + [s[i]];
      }
    }
    assert s[..|s|] == s;
  }

  // ---------------------------------------------------------------------
  // linear_planar_dme
  // ---------------------------------------------------------------------

  /** The point the embedding starts from: the clock location unless it is (-1, -1), else the centre. */
  function StartPoint(sinks: seq<Point>, clk: Point): Point
  {
    if clk.x == -1.0 && clk.y == -1.0 then Center(sinks) else clk
  }

  /** The points `linear_planar_dme` returns for a non-empty sink list. */
  function DmePoints(sinks: seq<Point>, clk: Point): (r: seq<Point>)
    requires |sinks| >= 1
  {
    [RoundCoordinates(StartPoint(sinks, clk))] + SubPoints(sinks)
  }

  /** Rounding any of the returned points again changes nothing. */
  lemma DmePointsRounded(sinks: seq<Point>, clk: Point)
    requires |sinks| >= 1
    ensures forall k :: 0 <= k < |DmePoints(sinks, clk)| ==>
      DmePoints(sinks, clk)[k] == RoundCoordinates(DmePoints(sinks, clk)[k])
  {
    var r := DmePoints(sinks, clk);
    SubPointsRounded(sinks);
    RoundTwice(StartPoint(sinks, clk));
    forall k | 0 <= k < |r|
      ensures r[k] == RoundCoordinates(r[k])
    {
      if k > 0 {
        assert r[k] == SubPoints(sinks)[k - 1];
      }
    }
  }

  /**
   * `linear_planar_dme` returns one grid point per sink: the rounded start
   * point first, then one merging point per internal node.
   */
  lemma DmePointsShape(sinks: seq<Point>, clk: Point)
    requires |sinks| >= 1
    ensures |DmePoints(sinks, clk)| == |sinks|
    ensures DmePoints(sinks, clk)[0] == RoundCoordinates(StartPoint(sinks, clk))
    ensures forall k :: 0 <= k < |sinks| ==>
      IsIntegral(DmePoints(sinks, clk)[k].x) && IsIntegral(DmePoints(sinks, clk)[k].y)
  {
    var r := DmePoints(sinks, clk);
    DmePointsRounded(sinks, clk);
    forall k | 0 <= k < |sinks|
      ensures IsIntegral(r[k].x) && IsIntegral(r[k].y)
    {
      assert r[k] == RoundCoordinates(r[k]);
    }
  }

  /**
   * `linear_planar_dme`: pushes the rounded start point, runs the
   * sub-recursion and rounds every collected point again. An empty list
   * reaches `front()` of an empty vector inside the sub-recursion, which is
   * reported as a failure.
   */
  method LinearPlanarDme(sinks: seq<Point>, clk: Point) returns (r: Result<seq<Point>>)
    ensures r.Failure? <==> |sinks| == 0
    ensures r.Success? ==> r.value == DmePoints(sinks, clk)
  {
    var r0 := ComputeRadius(sinks);
    var c := ComputeCenter(sinks);
    var start := if clk.x == -1.0 && clk.y == -1.0 then c else clk;
    var treePoints := [RoundCoordinates(start)];
    if |sinks| == 0 {
      return Failure(FrontOfEmpty);
    }
    treePoints := LinearPlanarDmeSub(sinks, treePoints);
    ghost var collected := DmePoints(sinks, clk);
    assert treePoints == collected;
    DmePointsRounded(sinks, clk);
    for k := 0 to |treePoints|
      invariant treePoints == collected
    {
      treePoints := treePoints[k := RoundCoordinates(treePoints[k])];
    }
    return Success(treePoints);
  }
}
