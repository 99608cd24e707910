/**
 * Geometry and list helpers of the synthesis flow: distances, medians and
 * extrema of sink lists, the greedy point filter, the half-up/half-down
 * rounding of merge points and the search for a grid cell no leaf occupies.
 */
module Utilities {
  import opened Numerics
  import opened Structures
  import opened Sorting

  // ---------------------------------------------------------------------
  // Distances
  // ---------------------------------------------------------------------

  /** `manhattanDistance`: |dx| + |dy| between two sinks (z is ignored). */
  function ManhattanDistance(a: Sink, b: Sink): (d: int)
    ensures d >= 0
    ensures d == 0 <==> a.x == b.x && a.y == b.y
  {
    Abs(a.x - b.x) + Abs(a.y - b.y)
  }

  /** The Manhattan distance is a metric on the (x, y) projection. */
  lemma ManhattanMetric(a: Sink, b: Sink, c: Sink)
    ensures ManhattanDistance(a, b) == ManhattanDistance(b, a)
    ensures ManhattanDistance(a, c) <= ManhattanDistance(a, b) + ManhattanDistance(b, c)
  {
  }

  /** The squared Euclidean distance between two points. */
  function DistSq(a: Point, b: Point): (r: real)
    ensures r >= 0.0
  {
    (a.x - b.x) * (a.x - b.x) + (a.y - b.y) * (a.y - b.y)
  }

  /** `euclideanDistance(a, b) < bound`, decided without a square root. */
  predicate Closer(a: Point, b: Point, bound: real)
  {
    bound > 0.0 && DistSq(a, b) < bound * bound
  }

  /** `euclideanDistance(a, b) <= bound`, decided without a square root. */
  predicate Within(a: Point, b: Point, bound: real)
  {
    bound >= 0.0 && DistSq(a, b) <= bound * bound
  }

  /** Both comparisons agree with the ones taken on a true square root. */
  lemma SquaredComparisons(sqrt: real -> real, a: Point, b: Point, bound: real)
    requires IsSqrt(sqrt)
    ensures sqrt(DistSq(a, b)) < bound <==> Closer(a, b, bound)
    ensures sqrt(DistSq(a, b)) <= bound <==> Within(a, b, bound)
  {
    var d := DistSq(a, b);
    var e := sqrt(d);
    assert e >= 0.0 && e * e == d;
    if bound >= 0.0 {
      SquareMonotone(e, bound);
    }
  }

  lemma SquareStrict(e: real, f: real)
    requires 0.0 <= e < f
    ensures e * e < f * f
  {
    var ee, ef, ff := e * e, e * f, f * f;
    assert ee <= ef by { assert ef - ee == e * (f - e); }
    assert ef < ff by { assert ff - ef == f * (f - e); assert f * (f - e) > 0.0; }
  }

  lemma SquareMonotone(e: real, f: real)
    requires e >= 0.0 && f >= 0.0
    ensures e < f <==> e * e < f * f
    ensures e <= f <==> e * e <= f * f
  {
    if e < f {
      SquareStrict(e, f);
    } else if f < e {
      SquareStrict(f, e);
    }
  }

  lemma CloserSymmetric(a: Point, b: Point, bound: real)
    ensures Closer(a, b, bound) == Closer(b, a, bound)
  {
    assert DistSq(a, b) == DistSq(b, a);
  }

  // ---------------------------------------------------------------------
  // Sink collection
  // ---------------------------------------------------------------------

  /** Every node's sink list, concatenated in pre-order (node, left, right). */
  function PreorderSinks(t: Tree): seq<Sink>
  {
    if t.Nil? then [] else t.sinks + PreorderSinks(t.left) + PreorderSinks(t.right)
  }

  /** `collectSinks`: appends the pre-order sink lists of `node` to `sinkVector`. */
  method CollectSinks(node: Tree, sinkVector: seq<Sink>) returns (r: seq<Sink>)
    ensures r == sinkVector + PreorderSinks(node)
  {
    if node.Nil? {
      return sinkVector;
    }
    r := sinkVector + node.sinks;
    r := CollectSinks(node.left, r);
    r := CollectSinks(node.right, r);
  }

  /** `treeToSinkVector` (and `extractSinks` into an empty list). */
  method TreeToSinkVector(root: Tree) returns (r: seq<Sink>)
    ensures r == PreorderSinks(root)
  {
    r := CollectSinks(root, []);
  }

  /** A leaf's sinks appear in the collected list at its pre-order position. */
  lemma {:induction false} PreorderSinksOfLeaf(t: Tree)
    requires IsLeaf(t)
    ensures PreorderSinks(t) == t.sinks
  {
    assert PreorderSinks(t.left) == [] && PreorderSinks(t.right) == [];
  }

  // ---------------------------------------------------------------------
  // Extrema and medians of a sink list
  // ---------------------------------------------------------------------

  datatype Axis = X | Y | Z

  function Coord(s: Sink, axis: Axis): int
  {
    match axis
    case X => s.x
    case Y => s.y
    case Z => s.z
  }

  /** The list of one coordinate of every sink, in order. */
  function Coords(sinks: seq<Sink>, axis: Axis): (r: seq<int>)
    ensures |r| == |sinks|
    ensures forall k :: 0 <= k < |sinks| ==> r[k] == Coord(sinks[k], axis)
  {
    if |sinks| == 0 then [] else Coords(sinks[..|sinks| - 1], axis) + [Coord(sinks[|sinks| - 1], axis)]
  }

  /** The smallest coordinate of a non-empty list. */
  function MinCoord(sinks: seq<Sink>, axis: Axis): int
    requires |sinks| > 0
  {
    if |sinks| == 1 then Coord(sinks[0], axis)
    else MinI(Coord(sinks[0], axis), MinCoord(sinks[1..], axis))
  }

  /** The largest coordinate of a non-empty list. */
  function MaxCoord(sinks: seq<Sink>, axis: Axis): int
    requires |sinks| > 0
  {
    if |sinks| == 1 then Coord(sinks[0], axis)
    else MaxI(Coord(sinks[0], axis), MaxCoord(sinks[1..], axis))
  }

  /** The minimum is attained by some sink and bounds every sink from below; dually the maximum. */
  lemma {:induction false} ExtremesAttained(sinks: seq<Sink>, axis: Axis)
    requires |sinks| > 0
    ensures exists k :: 0 <= k < |sinks| && Coord(sinks[k], axis) == MinCoord(sinks, axis)
    ensures exists k :: 0 <= k < |sinks| && Coord(sinks[k], axis) == MaxCoord(sinks, axis)
    ensures forall k :: 0 <= k < |sinks| ==>
      MinCoord(sinks, axis) <= Coord(sinks[k], axis) <= MaxCoord(sinks, axis)
  {
    if |sinks| > 1 {
      ExtremesAttained(sinks[1..], axis);
      assert forall k :: 1 <= k < |sinks| ==> sinks[k] == sinks[1..][k - 1];
      var kmin :| 0 <= kmin < |sinks| - 1 && Coord(sinks[1..][kmin], axis) == MinCoord(sinks[1..], axis);
      var kmax :| 0 <= kmax < |sinks| - 1 && Coord(sinks[1..][kmax], axis) == MaxCoord(sinks[1..], axis);
      if MinCoord(sinks, axis) != Coord(sinks[0], axis) {
        assert Coord(sinks[kmin + 1], axis) == MinCoord(sinks, axis);
      } else {
        assert Coord(sinks[0], axis) == MinCoord(sinks, axis);
      }
      if MaxCoord(sinks, axis) != Coord(sinks[0], axis) {
        assert Coord(sinks[kmax + 1], axis) == MaxCoord(sinks, axis);
      } else {
        assert Coord(sinks[0], axis) == MaxCoord(sinks, axis);
      }
    } else {
      assert Coord(sinks[0], axis) == MinCoord(sinks, axis) == MaxCoord(sinks, axis);
    }
  }

  /** `getMinX` / `getMinY` / `getMinZ`: throws on an empty list. */
  function GetMin(sinks: seq<Sink>, axis: Axis): (r: Result<int>)
    ensures r.Failure? <==> |sinks| == 0
    ensures r.Failure? ==> r.error == EmptySinkList
    ensures r.Success? ==> r.value == MinCoord(sinks, axis)
  {
    if |sinks| == 0 then Failure(EmptySinkList) else Success(MinCoord(sinks, axis))
  }

  /** `getMaxX` / `getMaxY` / `getMaxZ`: throws on an empty list. */
  function GetMax(sinks: seq<Sink>, axis: Axis): (r: Result<int>)
    ensures r.Failure? <==> |sinks| == 0
    ensures r.Failure? ==> r.error == EmptySinkList
    ensures r.Success? ==> r.value == MaxCoord(sinks, axis)
  {
    if |sinks| == 0 then Failure(EmptySinkList) else Success(MaxCoord(sinks, axis))
  }

  /** The middle of a sorted, non-empty list; two middles give their truncated mean. */
  function MiddleOfSorted(sorted: seq<int>): int
    requires |sorted| > 0
  {
    var n := |sorted|;
    if n % 2 == 0 then TruncDiv(sorted[n / 2 - 1] + sorted[n / 2], 2) else sorted[n / 2]
  }

  /** The median defined on the sorted coordinate list. */
  function Median(sinks: seq<Sink>, axis: Axis): int
    requires |sinks| > 0
  {
    MiddleOfSorted(SortBy(Coords(sinks, axis), IntKey))
  }

  /**
   * `calculateMedianX` / `calculateMedianY`: copies the coordinates, sorts
   * the copy and picks the middle. An empty list would index before the
   * start of the copy, so the list must not be empty.
   */
  method CalculateMedian(sinks: seq<Sink>, axis: Axis) returns (m: int)
    requires |sinks| > 0
    ensures m == Median(sinks, axis)
  {
    var coords := CopyCoords(sinks, axis);
    var sorted := SortBy(coords, IntKey);
    assert |sorted| == |sinks|;
    var n := |sorted|;
    if n % 2 == 0 {
      var middleIndex := n / 2;
      m := TruncDiv(sorted[middleIndex - 1] + sorted[middleIndex], 2);
    } else {
      m := sorted[n / 2];
    }
    assert m == MiddleOfSorted(sorted);
  }

  /** The copy of one coordinate of every sink that the median sorts. */
  method CopyCoords(sinks: seq<Sink>, axis: Axis) returns (coords: seq<int>)
    ensures coords == Coords(sinks, axis)
  {
    coords := [];
    var i := 0;
    while i < |sinks|
      invariant 0 <= i <= |sinks|
      invariant coords == Coords(sinks[..i], axis)
    {
      assert sinks[..i + 1][..i] == sinks[..i];
      coords := coords + [Coord(sinks[i], axis)];
      i := i + 1;
    }
    assert sinks[..|sinks|] == sinks;
  }

  /** Every coordinate of the list lies between `lo` and `hi`. */
  predicate AllBetween(coords: seq<int>, lo: int, hi: int)
  {
    forall k :: 0 <= k < |coords| ==> lo <= coords[k] <= hi
  }

  /**
   * The middle of a sorted rearrangement of `coords` stays within any bounds
   * of `coords`, and with an odd count it is one of them.
   */
  lemma MiddleBetween(coords: seq<int>, sorted: seq<int>, lo: int, hi: int)
    requires |sorted| > 0 && multiset(sorted) == multiset(coords)
    requires SortedBy(sorted, IntKey) && AllBetween(coords, lo, hi)
    ensures lo <= MiddleOfSorted(sorted) <= hi
    ensures |sorted| % 2 == 1 ==> MiddleOfSorted(sorted) in coords
  {
    var n := |sorted|;
    PermutationMember(coords, sorted, n / 2);
    if n % 2 == 0 {
      PermutationMember(coords, sorted, n / 2 - 1);
      assert IntKey(sorted[n / 2 - 1]) <= IntKey(sorted[n / 2]);
      TruncMeanBetween(sorted[n / 2 - 1], sorted[n / 2]);
    }
  }

  /**
   * The median lies between the extremes of the list, and with an odd count
   * it is one of the list's coordinates.
   */
  lemma MedianBounds(sinks: seq<Sink>, axis: Axis)
    requires |sinks| > 0
    ensures MinCoord(sinks, axis) <= Median(sinks, axis) <= MaxCoord(sinks, axis)
    ensures |sinks| % 2 == 1 ==> Median(sinks, axis) in Coords(sinks, axis)
  {
    ExtremesAttained(sinks, axis);
    var coords := Coords(sinks, axis);
    MiddleBetween(coords, SortBy(coords, IntKey), MinCoord(sinks, axis), MaxCoord(sinks, axis));
  }

  // ---------------------------------------------------------------------
  // filterPoints
  // ---------------------------------------------------------------------

  /** Some already kept point is closer than `minDistance` to `p`. */
  predicate TooClose(p: Point, kept: seq<Point>, minDistance: real)
  {
    exists q :: q in kept && Closer(p, q, minDistance)
  }

  /** The points `filterPoints` keeps, scanning the input front to back. */
  function Filtered(points: seq<Point>, minDistance: real): (r: seq<Point>)
    ensures |r| <= |points|
  {
    if |points| == 0 then []
    else
      var kept := Filtered(points[..|points| - 1], minDistance);
      var p := points[|points| - 1];
      if TooClose(p, kept, minDistance) then kept else kept + [p]
  }

  /** `filterPoints`: keeps each point not closer than `minDistance` to one already kept. */
  method FilterPoints(points: seq<Point>, minDistance: real) returns (filtered: seq<Point>)
    ensures filtered == Filtered(points, minDistance)
  {
    filtered := [];
    var i := 0;
    while i < |points|
      invariant 0 <= i <= |points|
      invariant filtered == Filtered(points[..i], minDistance)
    {
      var point := points[i];
      var tooClose := false;
      var j := 0;
      while j < |filtered|
        invariant 0 <= j <= |filtered|
        invariant !tooClose ==> forall k :: 0 <= k < j ==> !Closer(point, filtered[k], minDistance)
        invariant tooClose ==> TooClose(point, filtered, minDistance)
      {
        if Closer(point, filtered[j], minDistance) {
          tooClose := true;
          break;
        }
        j := j + 1;
      }
      assert points[..i + 1][..i] == points[..i];
      if !tooClose {
        filtered := filtered + [point];
      }
      i := i + 1;
    }
    assert points[..|points|] == points;
  }

  /** `sub` can be obtained from `s` by deleting elements. */
  predicate IsSubsequence<T(==)>(sub: seq<T>, s: seq<T>)
    decreases |s|
  {
    if |sub| == 0 then true
    else if |s| == 0 then false
    else if sub[|sub| - 1] == s[|s| - 1] then IsSubsequence(sub[..|sub| - 1], s[..|s| - 1])
    else IsSubsequence(sub, s[..|s| - 1])
  }

  /** A subsequence of `s` without its last element is a subsequence of `s`. */
  lemma {:induction false} SubsequenceDropLast<T>(sub: seq<T>, s: seq<T>)
    requires IsSubsequence(sub, s) && |sub| > 0
    ensures IsSubsequence(sub[..|sub| - 1], s)
    decreases |s|, 0
  {
    if sub[|sub| - 1] == s[|s| - 1] {
      SubsequenceExtend(sub[..|sub| - 1], s[..|s| - 1], s[|s| - 1]);
      assert s[..|s| - 1] + [s[|s| - 1]] == s;
    } else {
      SubsequenceDropLast(sub, s[..|s| - 1]);
      SubsequenceExtend(sub[..|sub| - 1], s[..|s| - 1], s[|s| - 1]);
      assert s[..|s| - 1] + [s[|s| - 1]] == s;
    }
  }

  /** Appending to the longer sequence keeps the relation. */
  lemma {:induction false} SubsequenceExtend<T>(sub: seq<T>, s: seq<T>, x: T)
    requires IsSubsequence(sub, s)
    ensures IsSubsequence(sub, s + [x])
    decreases |s|, 1
  {
    var t := s + [x];
    assert t[..|t| - 1] == s;
    if |sub| > 0 && sub[|sub| - 1] == x {
      SubsequenceDropLast(sub, s);
    }
  }

  /** The filtered list is an order-preserving selection of the input. */
  lemma {:induction false} FilteredIsSubsequence(points: seq<Point>, minDistance: real)
    ensures IsSubsequence(Filtered(points, minDistance), points)
  {
    if |points| > 0 {
      var init := points[..|points| - 1];
      var p := points[|points| - 1];
      FilteredIsSubsequence(init, minDistance);
      var kept := Filtered(init, minDistance);
      assert points == init + [p];
      if TooClose(p, kept, minDistance) {
        SubsequenceExtend(kept, init, p);
      } else {
        assert (kept + [p])[..|kept|] == kept;
      }
    }
  }

  /** The first input point is always kept, in first position. */
  lemma {:induction false} FilteredKeepsFirst(points: seq<Point>, minDistance: real)
    requires |points| > 0
    ensures |Filtered(points, minDistance)| > 0
    ensures Filtered(points, minDistance)[0] == points[0]
  {
    if |points| == 1 {
      assert Filtered(points[..0], minDistance) == [];
    } else {
      FilteredKeepsFirst(points[..|points| - 1], minDistance);
    }
  }

  /** No two points of `r` are closer than `minDistance`. */
  predicate Separated(r: seq<Point>, minDistance: real)
  {
    forall i, j :: 0 <= i < j < |r| ==> !Closer(r[i], r[j], minDistance)
  }

  /** Kept points are pairwise at least `minDistance` apart. */
  lemma {:induction false} FilteredSeparated(points: seq<Point>, minDistance: real)
    ensures Separated(Filtered(points, minDistance), minDistance)
  {
    if |points| > 0 {
      var init := points[..|points| - 1];
      var p := points[|points| - 1];
      FilteredSeparated(init, minDistance);
      var kept := Filtered(init, minDistance);
      if !TooClose(p, kept, minDistance) {
        var r := kept + [p];
        forall i, j | 0 <= i < j < |r|
          ensures !Closer(r[i], r[j], minDistance)
        {
          if j == |kept| {
            assert r[i] == kept[i] && r[j] == p;
            assert r[i] in kept;
            assert !Closer(p, r[i], minDistance);
            CloserSymmetric(r[i], p, minDistance);
          } else {
            assert r[i] == kept[i] && r[j] == kept[j];
            assert !Closer(kept[i], kept[j], minDistance);
          }
        }
      }
    }
  }

  /**
   * A point is either kept, or closer than `minDistance` to a point kept
   * from before it.
   */
  lemma {:induction false} FilteredDropped(points: seq<Point>, minDistance: real, k: int)
    requires 0 <= k < |points|
    ensures points[k] in Filtered(points, minDistance) ||
            TooClose(points[k], Filtered(points[..k], minDistance), minDistance)
  {
    var init := points[..|points| - 1];
    assert init[..k] == points[..k] || k == |points| - 1;
    if k < |points| - 1 {
      assert init[k] == points[k];
      FilteredDropped(init, minDistance, k);
    } else {
      assert init == points[..k];
    }
  }

  // ---------------------------------------------------------------------
  // Rounding of merge points
  // ---------------------------------------------------------------------

  /**
   * `roundCoordinates`: rounds one coordinate up and the other down. When the
   * fractional part of x is at least 1/2, x goes up and y down, otherwise the
   * other way round.
   */
  function RoundCoordinates(p: Point): (r: Point)
    ensures r.clusterId == UNVISITED
    ensures IsIntegral(r.x) && IsIntegral(r.y)
    ensures p.x - p.x.Floor as real >= 0.5 ==> r.x == Ceil(p.x) as real && r.y == Floor(p.y) as real
    ensures p.x - p.x.Floor as real < 0.5 ==> r.x == Floor(p.x) as real && r.y == Ceil(p.y) as real
  {
    if p.x - Floor(p.x) as real >= 0.5 then At(Ceil(p.x) as real, Floor(p.y) as real)
    else At(Floor(p.x) as real, Ceil(p.y) as real)
  }

  /** Rounding moves each coordinate by less than one and fixes integral points. */
  lemma RoundCoordinatesNear(p: Point)
    ensures -1.0 < RoundCoordinates(p).x - p.x < 1.0
    ensures -1.0 < RoundCoordinates(p).y - p.y < 1.0
    ensures IsIntegral(p.x) && IsIntegral(p.y) ==>
      RoundCoordinates(p).x == p.x && RoundCoordinates(p).y == p.y
  {
    if IsIntegral(p.x) && IsIntegral(p.y) {
      IntegralFixed(p.x);
      IntegralFixed(p.y);
    }
  }

  // ---------------------------------------------------------------------
  // Free-cell search
  // ---------------------------------------------------------------------

  /** `isCoordinateUsedByLeaf`: some childless node sits at (x, y). */
  function IsCoordinateUsedByLeaf(root: Tree, x: int, y: int): bool
  {
    if root.Nil? then false
    else if root.left.Nil? && root.right.Nil? && root.x == x && root.y == y then true
    else IsCoordinateUsedByLeaf(root.left, x, y) || IsCoordinateUsedByLeaf(root.right, x, y)
  }

  /** The childless nodes of a tree, in pre-order. */
  function Leaves(t: Tree): (r: seq<Tree>)
    ensures forall n :: n in r ==> IsLeaf(n)
  {
    if t.Nil? then []
    else if IsLeaf(t) then [t]
    else Leaves(t.left) + Leaves(t.right)
  }

  /** A cell is used exactly when one of the leaves sits on it; internal nodes do not count. */
  lemma {:induction false} UsedIffLeafAt(root: Tree, x: int, y: int)
    ensures IsCoordinateUsedByLeaf(root, x, y) <==>
      exists n :: n in Leaves(root) && n.x == x && n.y == y
  {
    if root.Node? && !IsLeaf(root) {
      UsedIffLeafAt(root.left, x, y);
      UsedIffLeafAt(root.right, x, y);
    }
  }

  /** The search radius `findNearestFreePoint` is called with. */
  const DEFAULT_MAX_DISTANCE: int := 5

  /** The candidate at integer offset (dx, dy) from `original`. */
  function Candidate(original: Point, dx: int, dy: int): Point
  {
    At(original.x + dx as real, original.y + dy as real)
  }

  /** The cell of the candidate at (dx, dy) holds no leaf. */
  predicate Free(root: Tree, original: Point, dx: int, dy: int)
  {
    var c := Candidate(original, dx, dy);
    !IsCoordinateUsedByLeaf(root, Trunc(c.x), Trunc(c.y))
  }

  /** Which offsets from `original` hold a free cell. */
  function FreeCells(root: Tree, original: Point): (int, int) -> bool
  {
    (i: int, j: int) => Free(root, original, i, j)
  }

  /**
   * Every candidate scanned before (d, dx, dy) is used: all offsets of
   * Chebyshev radius below d, the earlier columns of ring d, and the earlier
   * rows of column dx.
   */
  predicate ScannedUsed(free: (int, int) -> bool, d: int, dx: int, dy: int)
  {
    (forall i, j :: -d < i < d && -d < j < d ==> !free(i, j)) &&
    (forall i, j :: -d <= i < dx && -d <= j <= d ==> !free(i, j)) &&
    (forall j :: -d <= j < dy ==> !free(dx, j))
  }

  /** (dx, dy) in ring d is the first free candidate of the scan. */
  predicate FirstFree(free: (int, int) -> bool, maxDistance: int, d: int, dx: int, dy: int)
  {
    1 <= d <= maxDistance && -d <= dx <= d && -d <= dy <= d &&
    free(dx, dy) && ScannedUsed(free, d, dx, dy)
  }

  /** No candidate within Chebyshev radius `maxDistance` is free. */
  predicate NoneFree(free: (int, int) -> bool, maxDistance: int)
  {
    forall i, j :: -maxDistance <= i <= maxDistance && -maxDistance <= j <= maxDistance ==> !free(i, j)
  }

  /**
   * The scan of `findNearestFreePoint` from ring d, column dx, row dy on: the
   * offset of the first free candidate in scan order, or None when the rings
   * run out.
   */
  function Scan(free: (int, int) -> bool, maxDistance: int, d: int, dx: int, dy: int): Option<(int, int)>
    requires 1 <= d && -d <= dx <= d + 1 && -d <= dy <= d + 1
    decreases maxDistance - d + 1, d + 1 - dx, d + 1 - dy
  {
    if d > maxDistance then None
    else if dx > d then Scan(free, maxDistance, d + 1, -(d + 1), -(d + 1))
    else if dy > d then Scan(free, maxDistance, d, dx + 1, -d)
    else if free(dx, dy) then Some((dx, dy))
    else Scan(free, maxDistance, d, dx, dy + 1)
  }

  /** The scan from the first candidate of ring d. */
  function FromRing(free: (int, int) -> bool, maxDistance: int, d: int): Option<(int, int)>
    requires 1 <= d
  {
    Scan(free, maxDistance, d, -d, -d)
  }

  /** The scan from the first candidate of column dx of ring d. */
  function FromColumn(free: (int, int) -> bool, maxDistance: int, d: int, dx: int): Option<(int, int)>
    requires 1 <= d && -d <= dx <= d + 1
  {
    Scan(free, maxDistance, d, dx, -d)
  }

  /** One row of column dx: a free candidate is the result, a used one passes the scan on. */
  lemma ScanStep(free: (int, int) -> bool, maxDistance: int, d: int, dx: int, dy: int)
    requires 1 <= d <= maxDistance && -d <= dx <= d && -d <= dy <= d
    ensures free(dx, dy) ==> Scan(free, maxDistance, d, dx, dy) == Some((dx, dy))
    ensures !free(dx, dy) ==> Scan(free, maxDistance, d, dx, dy) == Scan(free, maxDistance, d, dx, dy + 1)
  {
  }

  /** A free candidate where the scan stands is what the scan finds. */
  lemma ColumnFound(free: (int, int) -> bool, maxDistance: int, d: int, dx: int, dy: int, target: Option<(int, int)>)
    requires 1 <= d <= maxDistance && -d <= dx <= d && -d <= dy <= d
    requires Scan(free, maxDistance, d, dx, dy) == target && free(dx, dy)
    ensures target == Some((dx, dy))
  {
  }

  /** Past the last row of column dx, the scan moves to the next column. */
  lemma ScanNextColumn(free: (int, int) -> bool, maxDistance: int, d: int, dx: int)
    requires 1 <= d <= maxDistance && -d <= dx <= d
    ensures Scan(free, maxDistance, d, dx, d + 1) == FromColumn(free, maxDistance, d, dx + 1)
  {
  }

  /** Past the last column of ring d, the scan moves to ring d + 1. */
  lemma ScanNextRing(free: (int, int) -> bool, maxDistance: int, d: int)
    requires 1 <= d <= maxDistance
    ensures FromColumn(free, maxDistance, d, d + 1) == FromRing(free, maxDistance, d + 1)
  {
  }

  /** Past the last ring, nothing is found. */
  lemma ScanPastLastRing(free: (int, int) -> bool, maxDistance: int, d: int)
    requires 1 <= d && maxDistance < d
    ensures FromRing(free, maxDistance, d) == None
  {
  }

  /** The point a scan outcome stands for: the candidate found, or the original. */
  function Outcome(original: Point, found: Option<(int, int)>): Point
  {
    match found
    case None => original
    case Some((dx, dy)) => Candidate(original, dx, dy)
  }

  /** The point `findNearestFreePoint` returns. */
  function NearestFree(root: Tree, original: Point, maxDistance: int): Point
  {
    if Free(root, original, 0, 0) then original
    else Outcome(original, Scan(FreeCells(root, original), maxDistance, 1, -1, -1))
  }

  /**
   * `findNearestFreePoint`: the original cell if free, else the first free
   * cell scanning rings d = 1..maxDistance, dx ascending, dy ascending, else
   * the original unchanged.
   */
  method FindNearestFreePoint(root: Tree, original: Point, maxDistance: int) returns (r: Point)
    ensures r == NearestFree(root, original, maxDistance)
  {
    FreeAtOrigin(root, original);
    if !IsCoordinateUsedByLeaf(root, Trunc(original.x), Trunc(original.y)) {
      return original;
    }
    r := ScanRings(root, original, maxDistance);
  }

  /** The ring loop of `findNearestFreePoint`: rings 1..maxDistance in turn. */
  method ScanRings(root: Tree, original: Point, maxDistance: int) returns (r: Point)
    ensures r == Outcome(original, Scan(FreeCells(root, original), maxDistance, 1, -1, -1))
  {
    ghost var free := FreeCells(root, original);
    ghost var target := FromRing(free, maxDistance, 1);
    var d := 1;
    while d <= maxDistance
      invariant 1 <= d
      invariant FromRing(free, maxDistance, d) == target
    {
      var found, candidate := ScanRing(root, original, maxDistance, d);
      if found {
        return candidate;
      }
      d := d + 1;
    }
    ScanPastLastRing(free, maxDistance, d);
    return original;
  }

  /** The zero offset tests the original's own cell. */
  lemma FreeAtOrigin(root: Tree, original: Point)
    ensures Free(root, original, 0, 0) == !IsCoordinateUsedByLeaf(root, Trunc(original.x), Trunc(original.y))
  {
    assert Candidate(original, 0, 0).x == original.x && Candidate(original, 0, 0).y == original.y;
  }

  /** Ring d, column by column: the first free candidate in it, if any. */
  method ScanRing(root: Tree, original: Point, maxDistance: int, d: int) returns (found: bool, r: Point)
    requires 1 <= d <= maxDistance
    ensures found ==> r == Outcome(original, FromRing(FreeCells(root, original), maxDistance, d))
    ensures !found ==>
      FromRing(FreeCells(root, original), maxDistance, d) == FromRing(FreeCells(root, original), maxDistance, d + 1)
  {
    ghost var free := FreeCells(root, original);
    ghost var target := FromRing(free, maxDistance, d);
    var dx := -d;
    while dx <= d
      invariant -d <= dx <= d + 1
      invariant FromColumn(free, maxDistance, d, dx) == target
    {
      found, r := ScanColumn(root, original, maxDistance, d, dx);
      if found {
        return;
      }
      dx := dx + 1;
    }
    ScanNextRing(free, maxDistance, d);
    return false, original;
  }

  /** The candidate at offset (dx, dy) and whether its cell holds no leaf. */
  method CandidateCell(root: Tree, original: Point, dx: int, dy: int, ghost free: (int, int) -> bool)
      returns (c: Point, isFree: bool)
    requires free == FreeCells(root, original)
    ensures c == Candidate(original, dx, dy)
    ensures isFree == free(dx, dy)
  {
    c := Candidate(original, dx, dy);
    isFree := !IsCoordinateUsedByLeaf(root, Trunc(c.x), Trunc(c.y));
  }

  /** One column dx of ring d: the first free candidate in it, if any. */
  method ScanColumn(root: Tree, original: Point, maxDistance: int, d: int, dx: int) returns (found: bool, r: Point)
    requires 1 <= d <= maxDistance && -d <= dx <= d
    ensures found ==> r == Outcome(original, FromColumn(FreeCells(root, original), maxDistance, d, dx))
    ensures !found ==>
      FromColumn(FreeCells(root, original), maxDistance, d, dx) == FromColumn(FreeCells(root, original), maxDistance, d, dx + 1)
  {
    ghost var free := FreeCells(root, original);
    ghost var target := FromColumn(free, maxDistance, d, dx);
    var dy := -d;
    while dy <= d
      invariant -d <= dy <= d + 1
      invariant Scan(free, maxDistance, d, dx, dy) == target
    {
      var candidate, isFree := CandidateCell(root, original, dx, dy, free);
      ScanStep(free, maxDistance, d, dx, dy);
      if isFree {
        ColumnFound(free, maxDistance, d, dx, dy, target);
        return true, candidate;
      }
      dy := dy + 1;
    }
    ScanNextColumn(free, maxDistance, d, dx);
    return false, original;
  }

  /**
   * The scan from (d, dx, dy), with every earlier candidate used, stops at
   * the first free candidate, in ring e, or finds none free at all.
   */
  lemma {:induction false} ScanFindsFirstFree(free: (int, int) -> bool, maxDistance: int, d: int, dx: int, dy: int)
      returns (e: int)
    requires 1 <= d && -d <= dx <= d + 1 && -d <= dy <= d + 1
    requires ScannedUsed(free, d, dx, dy)
    ensures Scan(free, maxDistance, d, dx, dy).None? ==> NoneFree(free, maxDistance)
    ensures Scan(free, maxDistance, d, dx, dy).Some? ==>
      FirstFree(free, maxDistance, e, Scan(free, maxDistance, d, dx, dy).value.0,
        Scan(free, maxDistance, d, dx, dy).value.1)
    decreases maxDistance - d + 1, d + 1 - dx, d + 1 - dy
  {
    if d > maxDistance {
      AllRingsScanned(free, maxDistance, d, dx, dy);
      e := d;
    } else if dx > d {
      RingScanned(free, d, dy);
      e := ScanFindsFirstFree(free, maxDistance, d + 1, -(d + 1), -(d + 1));
    } else if dy > d {
      ColumnScanned(free, d, dx);
      e := ScanFindsFirstFree(free, maxDistance, d, dx + 1, -d);
    } else if free(dx, dy) {
      e := d;
    } else {
      CandidateScanned(free, d, dx, dy);
      e := ScanFindsFirstFree(free, maxDistance, d, dx, dy + 1);
    }
  }

  /** A used candidate moves the scan to the next row. */
  lemma CandidateScanned(free: (int, int) -> bool, d: int, dx: int, dy: int)
    requires ScannedUsed(free, d, dx, dy) && !free(dx, dy)
    ensures ScannedUsed(free, d, dx, dy + 1)
  {
  }

  /** Once the scan is past the last ring, no candidate is free. */
  lemma AllRingsScanned(free: (int, int) -> bool, maxDistance: int, d: int, dx: int, dy: int)
    requires maxDistance < d && ScannedUsed(free, d, dx, dy)
    ensures NoneFree(free, maxDistance)
  {
  }

  /** A fully scanned ring leaves the next ring's interior scanned. */
  lemma RingScanned(free: (int, int) -> bool, d: int, dy: int)
    requires 1 <= d && ScannedUsed(free, d, d + 1, dy)
    ensures ScannedUsed(free, d + 1, -(d + 1), -(d + 1))
  {
  }

  /** A fully scanned column moves the scan to the next column. */
  lemma ColumnScanned(free: (int, int) -> bool, d: int, dx: int)
    requires 1 <= d && ScannedUsed(free, d, dx, d + 1)
    ensures ScannedUsed(free, d, dx + 1, -d)
  {
  }

  /**
   * `findNearestFreePoint` returns the original when it is free; otherwise
   * the first free candidate of the scan, or the original when no candidate
   * within `maxDistance` is free.
   */
  lemma NearestFreeIsFirstFree(root: Tree, original: Point, maxDistance: int)
    ensures Free(root, original, 0, 0) ==> NearestFree(root, original, maxDistance) == original
    ensures !Free(root, original, 0, 0) ==>
      (NearestFree(root, original, maxDistance) == original && NoneFree(FreeCells(root, original), maxDistance)) ||
      (exists d, dx, dy :: FirstFree(FreeCells(root, original), maxDistance, d, dx, dy) &&
        NearestFree(root, original, maxDistance) == Candidate(original, dx, dy))
  {
    if !Free(root, original, 0, 0) {
      var free := FreeCells(root, original);
      assert ScannedUsed(free, 1, -1, -1);
      var d := ScanFindsFirstFree(free, maxDistance, 1, -1, -1);
    }
  }

  /**
   * The cell the scan stops at is free, lies on ring d exactly, and no free
   * cell is closer in Chebyshev distance.
   */
  lemma FirstFreeIsNearest(free: (int, int) -> bool, maxDistance: int, d: int, dx: int, dy: int)
    requires FirstFree(free, maxDistance, d, dx, dy)
    ensures MaxI(Abs(dx), Abs(dy)) == d
    ensures forall i, j :: free(i, j) ==> MaxI(Abs(i), Abs(j)) >= d
  {
  }
}
