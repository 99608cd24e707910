/**
 * Bounded DBSCAN over the sink positions of one tier (clustering.hpp): the
 * classic first pass, then a pass that keeps only the `bound` largest
 * clusters and renumbers them 1, 2, ... in the order of their original ids,
 * and finally the write-back of the labels onto the leaves of the tree.
 *
 * The point list is an `array<Point>` relabelled in place, as the source's
 * `std::vector<Point>&`; every method is proved against a function on the
 * array's contents.
 */
module Clustering {
  import opened Numerics
  import opened Structures
  import opened Sorting
  import opened Utilities

  // ---------------------------------------------------------------------
  // Distances and neighbourhoods
  // ---------------------------------------------------------------------

  /** The squared Euclidean distance of two points. */
  function SqDist(p: Point, q: Point): (d: real)
  {
    (p.x - q.x) * (p.x - q.x) + (p.y - q.y) * (p.y - q.y)
  }

  /**
   * `euclideanDistance(p, q) <= eps`. The square root of d is at most eps
   * exactly when eps >= 0 and d <= eps * eps, so no square root is needed.
   */
  predicate Near(p: Point, q: Point, eps: real)
  {
    eps >= 0.0 && SqDist(p, q) <= eps * eps
  }

  /** `Near` agrees with comparing the square root of the squared distance. */
  lemma NearIsSqrtBelow(sqrt: real -> real, p: Point, q: Point, eps: real)
    requires IsSqrt(sqrt)
    ensures Near(p, q, eps) <==> sqrt(SqDist(p, q)) <= eps
  {
    var d := SqDist(p, q);
    SquareNonNegative(p.x - q.x);
    SquareNonNegative(p.y - q.y);
    var s := sqrt(d);
    assert s >= 0.0 && s * s == d;
    if s <= eps {
      assert eps * eps - s * s == (eps - s) * (eps + s);
      MulNonNegative(eps - s, eps + s);
      assert Near(p, q, eps);
    } else if eps >= 0.0 {
      assert s * s - eps * eps == (s - eps) * (s + eps);
      MulPositive(s - eps, s + eps);
      assert d > eps * eps;
      assert !Near(p, q, eps);
    }
  }

  /**
   * `neighbors.size() < minPts`, a comparison of a `size_t` with an `int`:
   * a negative minPts is converted to a huge unsigned value.
   */
  predicate Sparse(n: nat, minPts: int)
  {
    minPts < 0 || n < minPts
  }

  /** Indices below `n` within eps of point P, in increasing order. */
  function NeighborsBelow(points: seq<Point>, P: int, eps: real, n: int): (r: seq<int>)
    requires 0 <= P < |points| && 0 <= n <= |points|
    ensures forall k :: k in r <==> 0 <= k < n && Near(points[P], points[k], eps)
    ensures StrictlyIncreasing(r)
  {
    if n == 0 then []
    else
      var r := NeighborsBelow(points, P, eps, n - 1);
      assert forall k :: 0 <= k < |r| ==> r[k] < n - 1 by {
        forall k | 0 <= k < |r|
          ensures r[k] < n - 1
        {
          assert r[k] in r;
        }
      }
      r + (if Near(points[P], points[n - 1], eps) then [n - 1] else [])
  }

  /** What `regionQuery(points, P, eps)` returns. */
  function Neighbors(points: seq<Point>, P: int, eps: real): (r: seq<int>)
    requires 0 <= P < |points|
    ensures forall k :: k in r <==> 0 <= k < |points| && Near(points[P], points[k], eps)
    ensures StrictlyIncreasing(r)
  {
    NeighborsBelow(points, P, eps, |points|)
  }

  /** `regionQuery`: scans every point once and collects the near ones. */
  method RegionQuery(points: array<Point>, P: int, eps: real) returns (neighbors: seq<int>)
    requires 0 <= P < points.Length
    ensures neighbors == Neighbors(points[..], P, eps)
  {
    neighbors := [];
    for i := 0 to points.Length
      invariant neighbors == NeighborsBelow(points[..], P, eps, i)
    {
      if Near(points[P], points[i], eps) {
        neighbors := neighbors + [i];
      }
    }
  }

  /** Two lists whose points sit at the same positions, whatever their labels. */
  predicate SamePositions(a: seq<Point>, b: seq<Point>)
  {
    |a| == |b| && forall k :: 0 <= k < |a| ==> a[k].x == b[k].x && a[k].y == b[k].y
  }

  /** A point with eps >= 0 is its own neighbour; labels do not affect the query. */
  lemma {:induction false} NeighborsOfPositions(a: seq<Point>, b: seq<Point>, P: int, eps: real)
    requires SamePositions(a, b) && 0 <= P < |a|
    ensures Neighbors(a, P, eps) == Neighbors(b, P, eps)
    ensures eps >= 0.0 ==> P in Neighbors(a, P, eps)
  {
    NeighborsBelowOfPositions(a, b, P, eps, |a|);
    assert SqDist(a[P], a[P]) == 0.0;
  }

  lemma {:induction false} NeighborsBelowOfPositions(a: seq<Point>, b: seq<Point>, P: int, eps: real, n: int)
    requires SamePositions(a, b) && 0 <= P < |a| && 0 <= n <= |a|
    ensures NeighborsBelow(a, P, eps, n) == NeighborsBelow(b, P, eps, n)
  {
    if n > 0 {
      NeighborsBelowOfPositions(a, b, P, eps, n - 1);
      assert SqDist(a[P], a[n - 1]) == SqDist(b[P], b[n - 1]);
    }
  }

  // ---------------------------------------------------------------------
  // Labels
  // ---------------------------------------------------------------------

  /** The labels of a point list, in order. */
  function Labels(points: seq<Point>): (r: seq<int>)
    ensures |r| == |points| && forall k :: 0 <= k < |points| ==> r[k] == points[k].clusterId
  {
    seq(|points|, k requires 0 <= k < |points| => points[k].clusterId)
  }

  /** How many points carry `id` (what `clusterSizes[id]` counts). */
  function Count(points: seq<Point>, id: int): nat
  {
    multiset(Labels(points))[id]
  }

  /** The number of points still unvisited: the measure that bounds the expansion. */
  function Zeros(points: seq<Point>): nat
  {
    Count(points, UNVISITED)
  }

  /** `points[n].clusterId = id`. */
  function SetLabel(points: seq<Point>, n: int, id: int): (r: seq<Point>)
    requires 0 <= n < |points|
    ensures |r| == |points| && r[n].clusterId == id
    ensures forall k :: 0 <= k < |points| && k != n ==> r[k] == points[k]
    ensures SamePositions(points, r)
  {
    points[n := points[n].(clusterId := id)]
  }

  /** Relabelling one point changes the count of its old and new label by one. */
  lemma CountAfterSetLabel(points: seq<Point>, n: int, id: int, c: int)
    requires 0 <= n < |points|
    ensures Count(SetLabel(points, n, id), c) ==
            Count(points, c) - (if points[n].clusterId == c then 1 else 0) + (if id == c then 1 else 0)
  {
    assert Labels(SetLabel(points, n, id)) == Labels(points)[n := id];
  }

  /** Relabelling an unvisited point with a cluster id leaves one unvisited point fewer. */
  lemma ZerosAfterSetLabel(points: seq<Point>, n: int, id: int)
    requires 0 <= n < |points| && id != UNVISITED
    ensures points[n].clusterId == UNVISITED ==> Zeros(SetLabel(points, n, id)) < Zeros(points)
    ensures points[n].clusterId != UNVISITED ==> Zeros(SetLabel(points, n, id)) == Zeros(points)
  {
    CountAfterSetLabel(points, n, id, UNVISITED);
  }

  /** Every index in `worklist` is a valid position of a list of length n. */
  predicate Indices(worklist: seq<int>, n: int)
  {
    forall x :: x in worklist ==> 0 <= x < n
  }

  /**
   * `r` differs from `s` only in labels, and only where a noise or unvisited
   * label became `id`.
   */
  predicate Relabelled(s: seq<Point>, r: seq<Point>, id: int)
  {
    SamePositions(s, r) &&
    forall k :: 0 <= k < |s| ==>
      r[k].clusterId == s[k].clusterId ||
      ((s[k].clusterId == NOISE || s[k].clusterId == UNVISITED) && r[k].clusterId == id)
  }

  // ---------------------------------------------------------------------
  // expandCluster
  // ---------------------------------------------------------------------

  /**
   * The expansion loop from worklist position i on. A noise point reached by
   * the cluster joins it; an unvisited one joins it and, when dense, appends
   * its own neighbourhood to the worklist. Each append turns an unvisited
   * point into a member, so the loop ends.
   */
  function ExpandFrom(points: seq<Point>, worklist: seq<int>, i: int, clusterId: int, eps: real, minPts: int): (r: seq<Point>)
    requires clusterId > 0 && 0 <= i <= |worklist| && Indices(worklist, |points|)
    ensures Relabelled(points, r, clusterId)
    decreases Zeros(points), |worklist| - i
  {
    if i == |worklist| then points
    else
      var n := worklist[i];
      assert n in worklist;
      var s1 := if points[n].clusterId == NOISE then SetLabel(points, n, clusterId) else points;
      ZerosAfterSetLabel(points, n, clusterId);
      if s1[n].clusterId == UNVISITED then
        var s2 := SetLabel(s1, n, clusterId);
        var more := Neighbors(s2, n, eps);
        ZerosAfterSetLabel(s1, n, clusterId);
        var next := if Sparse(|more|, minPts) then worklist else worklist + more;
        ExpandFrom(s2, next, i + 1, clusterId, eps, minPts)
      else
        ExpandFrom(s1, worklist, i + 1, clusterId, eps, minPts)
  }

  /** What `expandCluster(points, P, neighbors, clusterId, eps, minPts)` leaves in `points`. */
  function Expand(points: seq<Point>, P: int, neighbors: seq<int>, clusterId: int, eps: real, minPts: int): (r: seq<Point>)
    requires clusterId > 0 && 0 <= P < |points| && Indices(neighbors, |points|)
    ensures Relabelled(SetLabel(points, P, clusterId), r, clusterId)
    ensures r[P].clusterId == clusterId
  {
    ExpandFrom(SetLabel(points, P, clusterId), neighbors, 0, clusterId, eps, minPts)
  }

  /** `expandCluster`: labels P, then works through the growing worklist. */
  method ExpandCluster(points: array<Point>, P: int, neighbors: seq<int>, clusterId: int, eps: real, minPts: int)
    requires clusterId > 0 && 0 <= P < points.Length && Indices(neighbors, points.Length)
    modifies points
    ensures points[..] == Expand(old(points[..]), P, neighbors, clusterId, eps, minPts)
  {
    ghost var target := Expand(points[..], P, neighbors, clusterId, eps, minPts);
    points[P] := points[P].(clusterId := clusterId);
    var worklist := neighbors;
    var i := 0;
    while i < |worklist|
      invariant 0 <= i <= |worklist| && Indices(worklist, points.Length)
      invariant ExpandFrom(points[..], worklist, i, clusterId, eps, minPts) == target
      decreases Zeros(points[..]), |worklist| - i
    {
      worklist := ExpandStep(points, worklist, i, clusterId, eps, minPts);
      i := i + 1;
    }
  }

  /** One iteration of the `expandCluster` loop, on worklist position i. */
  method ExpandStep(points: array<Point>, worklist: seq<int>, i: int, clusterId: int, eps: real, minPts: int)
      returns (next: seq<int>)
    requires clusterId > 0 && 0 <= i < |worklist| && Indices(worklist, points.Length)
    modifies points
    ensures Indices(next, points.Length) && |next| >= |worklist|
    ensures ExpandFrom(points[..], next, i + 1, clusterId, eps, minPts) ==
            ExpandFrom(old(points[..]), worklist, i, clusterId, eps, minPts)
    ensures Zeros(points[..]) < Zeros(old(points[..])) ||
            (Zeros(points[..]) == Zeros(old(points[..])) && next == worklist)
  {
    ghost var before := points[..];
    var n := worklist[i];
    assert n in worklist;
    ZerosAfterSetLabel(before, n, clusterId);
    next := worklist;
    if points[n].clusterId == NOISE {
      points[n] := points[n].(clusterId := clusterId);
      assert points[..] == SetLabel(before, n, clusterId);
    }
    ghost var s1 := points[..];
    if points[n].clusterId == UNVISITED {
      points[n] := points[n].(clusterId := clusterId);
      assert points[..] == SetLabel(s1, n, clusterId);
      ZerosAfterSetLabel(s1, n, clusterId);
      var newNeighbors := RegionQuery(points, n, eps);
      if !Sparse(|newNeighbors|, minPts) {
        next := worklist + newNeighbors;
      }
    }
  }

  // ---------------------------------------------------------------------
  // First pass: plain DBSCAN with sparse points left unvisited
  // ---------------------------------------------------------------------

  /**
   * The first pass from point i on, with `clusterId` ids issued so far: an
   * unvisited dense point opens the next cluster; a sparse one stays 0.
   * Returns the relabelled points and the number of ids issued.
   */
  function FirstPass(points: seq<Point>, i: int, clusterId: int, eps: real, minPts: int): (r: (seq<Point>, int))
    requires 0 <= i <= |points| && clusterId >= 0
    ensures |r.0| == |points| && r.1 >= clusterId
    decreases |points| - i
  {
    if i == |points| then (points, clusterId)
    else if points[i].clusterId != UNVISITED then FirstPass(points, i + 1, clusterId, eps, minPts)
    else
      var neighbors := Neighbors(points, i, eps);
      if Sparse(|neighbors|, minPts) then FirstPass(points, i + 1, clusterId, eps, minPts)
      else
        var next := clusterId + 1;
        assert Indices(neighbors, |points|);
        FirstPass(Expand(points, i, neighbors, next, eps, minPts), i + 1, next, eps, minPts)
  }

  /** Every label is in 0..c and each of 1..c is used. */
  predicate Consecutive(points: seq<Point>, c: int)
  {
    (forall k :: 0 <= k < |points| ==> 0 <= points[k].clusterId <= c) &&
    (forall id :: 1 <= id <= c ==> id in Labels(points))
  }

  /** From unvisited points, the first pass issues ids 1, 2, ... and leaves every other point 0. */
  lemma {:induction false} FirstPassConsecutive(points: seq<Point>, i: int, c: int, eps: real, minPts: int)
    requires 0 <= i <= |points| && c >= 0 && Consecutive(points, c)
    ensures Consecutive(FirstPass(points, i, c, eps, minPts).0, FirstPass(points, i, c, eps, minPts).1)
    decreases |points| - i
  {
    if i < |points| && points[i].clusterId == UNVISITED {
      var neighbors := Neighbors(points, i, eps);
      if !Sparse(|neighbors|, minPts) {
        var r := Expand(points, i, neighbors, c + 1, eps, minPts);
        var s := SetLabel(points, i, c + 1);
        forall k | 0 <= k < |r|
          ensures 0 <= r[k].clusterId <= c + 1
        {
          if k != i {
            assert s[k] == points[k];
          }
        }
        forall id | 1 <= id <= c + 1
          ensures id in Labels(r)
        {
          if id == c + 1 {
            assert Labels(r)[i] == id;
          } else {
            assert id in Labels(points);
            var k :| 0 <= k < |points| && Labels(points)[k] == id;
            assert k != i && s[k] == points[k];
            assert Labels(r)[k] == id;
          }
        }
        FirstPassConsecutive(r, i + 1, c + 1, eps, minPts);
      } else {
        FirstPassConsecutive(points, i + 1, c, eps, minPts);
      }
    } else if i < |points| {
      FirstPassConsecutive(points, i + 1, c, eps, minPts);
    }
  }

  /** The first loop of `dbscan`. */
  method FirstPassLoop(points: array<Point>, eps: real, minPts: int) returns (clusterId: int)
    modifies points
    ensures (points[..], clusterId) == FirstPass(old(points[..]), 0, 0, eps, minPts)
  {
    clusterId := 0;
    for i := 0 to points.Length
      invariant clusterId >= 0
      invariant FirstPass(points[..], i, clusterId, eps, minPts) == FirstPass(old(points[..]), 0, 0, eps, minPts)
    {
      ghost var before := points[..];
      if points[i].clusterId == UNVISITED {
        var neighbors := RegionQuery(points, i, eps);
        if Sparse(|neighbors|, minPts) {
          points[i] := points[i].(clusterId := UNVISITED);
          assert points[..] == before;
        } else {
          clusterId := clusterId + 1;
          ExpandCluster(points, i, neighbors, clusterId, eps, minPts);
        }
      }
    }
  }

  // ---------------------------------------------------------------------
  // Second pass: keep the `bound` largest clusters and renumber them
  // ---------------------------------------------------------------------

  /** The cluster ids present. */
  function Clusters(points: seq<Point>): set<int>
  {
    set id | id in Labels(points) && id > 0
  }

  /** `clusterSizes`: each cluster id mapped to its number of points. */
  function SizesOf(points: seq<Point>): (m: map<int, int>)
    ensures m.Keys == Clusters(points)
  {
    map id | id in Clusters(points) :: Count(points, id)
  }

  /** One more point adds one to its cluster's entry, creating it at 0 first. */
  lemma SizesSnoc(points: seq<Point>, p: Point)
    ensures SizesOf(points + [p]) ==
      if p.clusterId > 0 then
        SizesOf(points)[p.clusterId := (if p.clusterId in SizesOf(points) then SizesOf(points)[p.clusterId] else 0) + 1]
      else SizesOf(points)
  {
    var c := p.clusterId;
    assert Labels(points + [p]) == Labels(points) + [c];
    assert multiset(Labels(points + [p])) == multiset(Labels(points)) + multiset{c};
    assert Clusters(points + [p]) == if c > 0 then Clusters(points) + {c} else Clusters(points);
    var before, after := SizesOf(points), SizesOf(points + [p]);
    var expected := if c > 0 then before[c := (if c in before then before[c] else 0) + 1] else before;
    forall id | id in after
      ensures id in expected && after[id] == expected[id]
    {
      if id == c && c !in before {
        assert c !in Labels(points);
      }
    }
    assert after == expected;
  }

  /** The counting loop of `dbscan`. */
  method ClusterSizes(points: array<Point>) returns (sizes: map<int, int>)
    ensures sizes == SizesOf(points[..])
  {
    sizes := map[];
    for k := 0 to points.Length
      invariant sizes == SizesOf(points[..k])
    {
      var p := points[k];
      SizesSnoc(points[..k], p);
      assert points[..k + 1] == points[..k] + [p];
      if p.clusterId > 0 {
        var old_size := if p.clusterId in sizes then sizes[p.clusterId] else 0;
        sizes := sizes[p.clusterId := old_size + 1];
      }
    }
    assert points[..points.Length] == points[..];
  }

  /** `{size, clusterId}` pairs for the ids in `ids`, in that order. */
  function PairsOf(sizes: map<int, int>, ids: seq<int>): (r: seq<(int, int)>)
    requires forall k :: 0 <= k < |ids| ==> ids[k] in sizes
    ensures |r| == |ids| && forall k :: 0 <= k < |ids| ==> r[k] == (sizes[ids[k]], ids[k])
  {
    if |ids| == 0 then []
    else PairsOf(sizes, ids[..|ids| - 1]) + [(sizes[ids[|ids| - 1]], ids[|ids| - 1])]
  }

  /** `sortedClusters` before the sort: one pair per cluster, by ascending id. */
  function SizePairs(points: seq<Point>): seq<(int, int)>
  {
    PairsOf(SizesOf(points), Ascending(SizesOf(points).Keys))
  }

  /** `std::greater<std::pair<int, int>>` allows `a` first: lexicographically a >= b. */
  predicate Above(a: (int, int), b: (int, int))
  {
    a.0 > b.0 || (a.0 == b.0 && a.1 >= b.1)
  }

  predicate Descending(s: seq<(int, int)>)
  {
    forall i, j :: 0 <= i < j < |s| ==> Above(s[i], s[j])
  }

  /** Insert `p` before the first element not above it. */
  function InsertDescending(p: (int, int), s: seq<(int, int)>): (r: seq<(int, int)>)
    requires Descending(s)
    ensures Descending(r) && |r| == |s| + 1
    ensures forall q :: q in r <==> q == p || q in s
    ensures multiset(r) == multiset(s) + multiset{p}
  {
    if |s| == 0 || Above(p, s[0]) then [p] + s
    else
      assert s == [s[0]] + s[1..];
      var tail := InsertDescending(p, s[1..]);
      forall k | 0 <= k < |tail|
        ensures Above(s[0], tail[k])
      {
        assert tail[k] in tail;
      }
      [s[0]] + tail
  }

  /** `std::sort(..., std::greater<>())` on the pairs. */
  function SortDescending(s: seq<(int, int)>): (r: seq<(int, int)>)
    ensures Descending(r) && |r| == |s|
    ensures forall q :: q in r <==> q in s
    ensures multiset(r) == multiset(s)
  {
    if |s| == 0 then []
    else
      assert s == [s[0]] + s[1..];
      InsertDescending(s[0], SortDescending(s[1..]))
  }

  /** No two pairs name the same cluster. */
  predicate DistinctIds(s: seq<(int, int)>)
  {
    forall i, j :: 0 <= i < j < |s| ==> s[i].1 != s[j].1
  }

  lemma {:induction false} InsertKeepsDistinct(p: (int, int), s: seq<(int, int)>)
    requires Descending(s) && DistinctIds(s) && forall q :: q in s ==> q.1 != p.1
    ensures DistinctIds(InsertDescending(p, s))
  {
    if !(|s| == 0 || Above(p, s[0])) {
      assert s == [s[0]] + s[1..];
      InsertKeepsDistinct(p, s[1..]);
      var t := InsertDescending(p, s[1..]);
      forall k | 0 <= k < |t|
        ensures t[k].1 != s[0].1
      {
        assert t[k] in t;
        if t[k] != p {
          var j :| 0 <= j < |s[1..]| && s[1..][j] == t[k];
          assert s[j + 1] == t[k];
        }
      }
    }
  }

  /** Sorting does not merge two pairs of the same cluster. */
  lemma {:induction false} SortKeepsDistinct(s: seq<(int, int)>)
    requires DistinctIds(s)
    ensures DistinctIds(SortDescending(s))
  {
    if |s| > 0 {
      assert s == [s[0]] + s[1..];
      SortKeepsDistinct(s[1..]);
      forall q | q in SortDescending(s[1..])
        ensures q.1 != s[0].1
      {
        var j :| 0 <= j < |s[1..]| && s[1..][j] == q;
        assert s[j + 1] == q;
      }
      InsertKeepsDistinct(s[0], SortDescending(s[1..]));
    }
  }

  /** The sorted pairs. */
  function Ranked(points: seq<Point>): seq<(int, int)>
  {
    SortDescending(SizePairs(points))
  }

  /** The ids of the first min(m, |s|) pairs. */
  function PrefixIds(s: seq<(int, int)>, m: int): set<int>
  {
    set i | 0 <= i < |s| && i < m :: s[i].1
  }

  /** `keepClusters`: the ids of the first min(bound, #clusters) ranked pairs. */
  function Keep(points: seq<Point>, bound: int): set<int>
  {
    PrefixIds(Ranked(points), bound)
  }

  /** The smaller clusters demoted to 0. */
  function Demote(points: seq<Point>, keep: set<int>): (r: seq<Point>)
    ensures |r| == |points|
  {
    seq(|points|, k requires 0 <= k < |points| =>
      if points[k].clusterId > 0 && points[k].clusterId !in keep
      then points[k].(clusterId := UNVISITED) else points[k])
  }

  /** `clusterRemap` after the ascending loop over `asc`: asc[j] gets j + 1. */
  function RemapOf(asc: seq<int>): map<int, int>
  {
    if |asc| == 0 then map[]
    else RemapOf(asc[..|asc| - 1])[asc[|asc| - 1] := |asc|]
  }

  /** `m[key]` on a `std::map<int, int>`: a missing key reads as 0. */
  function Lookup(m: map<int, int>, key: int): int
  {
    if key in m then m[key] else 0
  }

  /** The renumbering loop: positive labels go through the remap. */
  function Renumber(points: seq<Point>, remap: map<int, int>): (r: seq<Point>)
    ensures |r| == |points|
  {
    seq(|points|, k requires 0 <= k < |points| =>
      if points[k].clusterId > 0
      then points[k].(clusterId := Lookup(remap, points[k].clusterId)) else points[k])
  }

  /** The second phase on the first pass's labels: demote, then renumber. */
  function SecondPass(first: seq<Point>, bound: int): (r: seq<Point>)
    ensures |r| == |first|
  {
    var keep := Keep(first, bound);
    Renumber(Demote(first, keep), RemapOf(Ascending(keep)))
  }

  /** The labels `dbscan(points, eps, minPts, bound)` leaves. */
  function BoundedDbscan(points: seq<Point>, eps: real, minPts: int, bound: int): (r: seq<Point>)
    ensures |r| == |points|
  {
    SecondPass(FirstPass(points, 0, 0, eps, minPts).0, bound)
  }

  /** The loop that builds `sortedClusters` from `clusterSizes`. */
  method SortedClusters(sizes: map<int, int>) returns (sorted: seq<(int, int)>)
    ensures sorted == SortDescending(PairsOf(sizes, Ascending(sizes.Keys)))
  {
    var ids := Ascending(sizes.Keys);
    var pairs := [];
    for k := 0 to |ids|
      invariant pairs == PairsOf(sizes, ids[..k])
    {
      PairsOfSnoc(sizes, ids, k);
      pairs := pairs + [(sizes[ids[k]], ids[k])];
    }
    assert ids[..|ids|] == ids;
    sorted := SortDescending(pairs);
  }

  lemma PairsOfSnoc(sizes: map<int, int>, ids: seq<int>, k: int)
    requires 0 <= k < |ids| && forall j :: 0 <= j < |ids| ==> ids[j] in sizes
    ensures PairsOf(sizes, ids[..k + 1]) == PairsOf(sizes, ids[..k]) + [(sizes[ids[k]], ids[k])]
  {
    assert ids[..k + 1][..k] == ids[..k];
  }

  /** The loop that fills `keepClusters`. */
  method KeepClusters(sorted: seq<(int, int)>, bound: int) returns (keep: set<int>)
    ensures keep == PrefixIds(sorted, bound)
  {
    keep := {};
    var limit := if bound <= |sorted| then bound else |sorted|;
    var i := 0;
    while i < limit
      invariant 0 <= i <= (if limit < 0 then 0 else limit)
      invariant keep == set j | 0 <= j < i :: sorted[j].1
    {
      keep := keep + {sorted[i].1};
      i := i + 1;
    }
    assert (set j | 0 <= j < i :: sorted[j].1) == PrefixIds(sorted, bound);
  }

  /** The demotion loop of `dbscan`. */
  method DemoteSmaller(points: array<Point>, keep: set<int>)
    modifies points
    ensures points[..] == Demote(old(points[..]), keep)
  {
    for k := 0 to points.Length
      invariant forall j :: 0 <= j < k ==> points[j] == Demote(old(points[..]), keep)[j]
      invariant forall j :: k <= j < points.Length ==> points[j] == old(points[j])
    {
      if points[k].clusterId > 0 && points[k].clusterId !in keep {
        points[k] := points[k].(clusterId := UNVISITED);
      }
    }
  }

  /** The loop that fills `clusterRemap`, visiting `keepClusters` in ascending order. */
  method RemapClusters(keep: set<int>) returns (remap: map<int, int>)
    ensures remap == RemapOf(Ascending(keep))
  {
    var asc := Ascending(keep);
    remap := map[];
    var newClusterId := 1;
    for k := 0 to |asc|
      invariant newClusterId == k + 1
      invariant remap == RemapOf(asc[..k])
    {
      RemapOfSnoc(asc, k);
      remap := remap[asc[k] := newClusterId];
      newClusterId := newClusterId + 1;
    }
    assert asc[..|asc|] == asc;
  }

  lemma RemapOfSnoc(asc: seq<int>, k: int)
    requires 0 <= k < |asc|
    ensures RemapOf(asc[..k + 1]) == RemapOf(asc[..k])[asc[k] := k + 1]
  {
    assert asc[..k + 1][..k] == asc[..k];
  }

  /** The final loop of `dbscan`. */
  method ApplyRemap(points: array<Point>, remap: map<int, int>)
    modifies points
    ensures points[..] == Renumber(old(points[..]), remap)
  {
    for k := 0 to points.Length
      invariant forall j :: 0 <= j < k ==> points[j] == Renumber(old(points[..]), remap)[j]
      invariant forall j :: k <= j < points.Length ==> points[j] == old(points[j])
    {
      if points[k].clusterId > 0 {
        points[k] := points[k].(clusterId := Lookup(remap, points[k].clusterId));
      }
    }
  }

  /** `dbscan(points, eps, minPts, bound)`. */
  method Dbscan(points: array<Point>, eps: real, minPts: int, bound: int)
    modifies points
    ensures points[..] == BoundedDbscan(old(points[..]), eps, minPts, bound)
  {
    var clusterId := FirstPassLoop(points, eps, minPts);
    var sizes := ClusterSizes(points);
    var sorted := SortedClusters(sizes);
    var keep := KeepClusters(sorted, bound);
    DemoteSmaller(points, keep);
    var remap := RemapClusters(keep);
    ApplyRemap(points, remap);
  }

  // ---------------------------------------------------------------------
  // What the bounded pass guarantees
  // ---------------------------------------------------------------------

  /** The number of clusters the first pass found. */
  function Found(points: seq<Point>, eps: real, minPts: int): int
  {
    FirstPass(points, 0, 0, eps, minPts).1
  }

  /** The number of clusters that survive: min(bound, found), and none for bound <= 0. */
  function KeptCount(points: seq<Point>, eps: real, minPts: int, bound: int): int
  {
    if bound <= 0 then 0 else MinI(bound, Found(points, eps, minPts))
  }

  /** Every point still to be visited. */
  predicate AllUnvisited(points: seq<Point>)
  {
    forall k :: 0 <= k < |points| ==> points[k].clusterId == UNVISITED
  }

  /** The ranked pairs are exactly the (size, id) pairs of the clusters present, one per cluster. */
  lemma RankedPairs(points: seq<Point>)
    ensures forall q :: q in Ranked(points) ==> q.1 in Clusters(points) && q.0 == Count(points, q.1)
    ensures forall id :: id in Clusters(points) ==> (Count(points, id), id) in Ranked(points)
    ensures DistinctIds(Ranked(points)) && |Ranked(points)| == |Clusters(points)|
  {
    RankedFromClusters(points);
    ClustersRanked(points);
    SortKeepsDistinct(SizePairs(points));
  }

  /** Every ranked pair is a cluster with its size. */
  lemma RankedFromClusters(points: seq<Point>)
    ensures forall q :: q in Ranked(points) ==> q.1 in Clusters(points) && q.0 == Count(points, q.1)
  {
    var sizes := SizesOf(points);
    var ids := Ascending(sizes.Keys);
    var pairs := PairsOf(sizes, ids);
    forall q | q in Ranked(points)
      ensures q.1 in Clusters(points) && q.0 == Count(points, q.1)
    {
      assert q in pairs;
      var k :| 0 <= k < |pairs| && pairs[k] == q;
      assert ids[k] in ids;
    }
  }

  /** Every cluster is ranked with its size. */
  lemma ClustersRanked(points: seq<Point>)
    ensures forall id :: id in Clusters(points) ==> (Count(points, id), id) in Ranked(points)
  {
    var sizes := SizesOf(points);
    var ids := Ascending(sizes.Keys);
    var pairs := PairsOf(sizes, ids);
    forall id | id in Clusters(points)
      ensures (Count(points, id), id) in Ranked(points)
    {
      var k :| 0 <= k < |ids| && ids[k] == id;
      assert pairs[k] in pairs;
    }
  }

  /** A distinct prefix of m pairs names m clusters. */
  lemma {:induction false} PrefixIdsSize(s: seq<(int, int)>, m: int)
    requires DistinctIds(s)
    ensures |PrefixIds(s, m)| == if m <= 0 then 0 else MinI(m, |s|)
    decreases if m < 0 then 0 else m
  {
    if m <= 0 {
      assert PrefixIds(s, m) == {};
    } else if m > |s| {
      assert PrefixIds(s, m) == PrefixIds(s, |s|);
      PrefixIdsSize(s, |s|);
    } else {
      PrefixIdsSize(s, m - 1);
      PrefixIdsSnoc(s, m);
    }
  }

  /** One pair more in the prefix adds its id, which a distinct list has not named before. */
  lemma PrefixIdsSnoc(s: seq<(int, int)>, m: int)
    requires DistinctIds(s) && 0 < m <= |s|
    ensures PrefixIds(s, m) == PrefixIds(s, m - 1) + {s[m - 1].1}
    ensures s[m - 1].1 !in PrefixIds(s, m - 1)
  {
    assert PrefixIds(s, m) == PrefixIds(s, m - 1) + {s[m - 1].1};
  }

  /** The ids 1..c. */
  function Interval(c: int): (r: set<int>)
    ensures forall id :: id in r <==> 1 <= id <= c
    ensures |r| == if c <= 0 then 0 else c
  {
    if c <= 0 then {} else Interval(c - 1) + {c}
  }

  /** `clusterRemap` sends the j-th smallest kept id to j + 1 and holds nothing else. */
  lemma {:induction false} RemapOfPositions(asc: seq<int>)
    requires StrictlyIncreasing(asc)
    ensures forall x :: x in RemapOf(asc) <==> x in asc
    ensures forall j :: 0 <= j < |asc| ==> asc[j] in RemapOf(asc) && RemapOf(asc)[asc[j]] == j + 1
  {
    if |asc| > 0 {
      var init := asc[..|asc| - 1];
      RemapOfPositions(init);
      forall j | 0 <= j < |init|
        ensures init[j] != asc[|asc| - 1]
      {
        assert init[j] == asc[j];
      }
      assert asc == init + [asc[|asc| - 1]];
    }
  }

  /** The renumbering keeps the order of the original ids. */
  lemma RenumberingMonotone(keep: set<int>, a: int, b: int)
    requires a in keep && b in keep && a < b
    ensures 1 <= Lookup(RemapOf(Ascending(keep)), a) < Lookup(RemapOf(Ascending(keep)), b) <= |keep|
  {
    var asc := Ascending(keep);
    assert a in asc && b in asc;
    var i :| 0 <= i < |asc| && asc[i] == a;
    var j :| 0 <= j < |asc| && asc[j] == b;
    IncreasingIndexOrder(asc, i, j);
    RemapOfPositions(asc);
    assert RemapOf(asc)[asc[i]] == i + 1 && RemapOf(asc)[asc[j]] == j + 1;
  }

  /** In a strictly increasing list the smaller value sits at the smaller index. */
  lemma IncreasingIndexOrder(s: seq<int>, i: int, j: int)
    requires StrictlyIncreasing(s) && 0 <= i < |s| && 0 <= j < |s| && s[i] < s[j]
    ensures i < j
  {
  }

  /**
   * The kept clusters are the largest: a demoted cluster is smaller than every
   * kept one, or as large with a smaller id (`std::greater` on (size, id)).
   */
  lemma KeptAreLargest(points: seq<Point>, bound: int, a: int, d: int)
    requires a in Keep(points, bound) && d in Clusters(points) && d !in Keep(points, bound)
    ensures Count(points, a) > Count(points, d) || (Count(points, a) == Count(points, d) && a > d)
  {
    RankedPairs(points);
    var ranked := Ranked(points);
    var i :| 0 <= i < |ranked| && i < bound && ranked[i].1 == a;
    assert ranked[i] in ranked;
    var q := (Count(points, d), d);
    var j :| 0 <= j < |ranked| && ranked[j] == q;
    assert j >= bound;
  }

  /**
   * The second phase, point by point: an unclustered point keeps its label, a
   * point of a kept cluster takes the cluster's new number, and a point of a
   * demoted cluster ends at 0.
   */
  lemma SecondPhase(first: seq<Point>, bound: int, k: int)
    requires 0 <= k < |first|
    ensures var keep := Keep(first, bound);
            var l := first[k].clusterId;
            var r := SecondPass(first, bound)[k];
            && r.x == first[k].x && r.y == first[k].y
            && (l <= 0 ==> r == first[k])
            && (l > 0 && l !in keep ==> r.clusterId == UNVISITED)
            && (l > 0 && l in keep ==> r.clusterId == Lookup(RemapOf(Ascending(keep)), l) && 1 <= r.clusterId <= |keep|)
  {
    var keep := Keep(first, bound);
    var l := first[k].clusterId;
    var d := Demote(first, keep);
    assert d[k] == if l > 0 && l !in keep then first[k].(clusterId := UNVISITED) else first[k];
    if l > 0 && l in keep {
      var asc := Ascending(keep);
      RemapOfPositions(asc);
      var j :| 0 <= j < |asc| && asc[j] == l;
    }
  }

  /** After a first pass that used ids 1..c, min(bound, c) clusters are kept (none for bound <= 0). */
  lemma KeptClusters(first: seq<Point>, c: int, bound: int)
    requires c >= 0 && Consecutive(first, c)
    ensures Keep(first, bound) <= Clusters(first)
    ensures |Keep(first, bound)| == if bound <= 0 then 0 else MinI(bound, c)
  {
    forall id
      ensures id in Clusters(first) <==> id in Interval(c)
    {
      if id in Interval(c) {
        assert id in Labels(first);
      }
    }
    assert Clusters(first) == Interval(c);
    RankedPairs(first);
    PrefixIdsSize(Ranked(first), bound);
    forall id | id in Keep(first, bound)
      ensures id in Clusters(first)
    {
      var i :| 0 <= i < |Ranked(first)| && i < bound && Ranked(first)[i].1 == id;
      assert Ranked(first)[i] in Ranked(first);
    }
  }

  /** The second phase turns labels 0..c with 1..c used into labels 0..k with 1..k used. */
  lemma SecondPassConsecutive(first: seq<Point>, c: int, bound: int)
    requires c >= 0 && Consecutive(first, c)
    ensures Consecutive(SecondPass(first, bound), if bound <= 0 then 0 else MinI(bound, c))
  {
    KeptClusters(first, c, bound);
    SecondPassBounded(first, bound);
    SecondPassUsesKept(first, bound);
  }

  /** From non-negative labels, the second phase leaves every label in 0..(number of kept clusters). */
  lemma SecondPassBounded(first: seq<Point>, bound: int)
    requires forall k :: 0 <= k < |first| ==> 0 <= first[k].clusterId
    ensures forall k :: 0 <= k < |SecondPass(first, bound)| ==>
      0 <= SecondPass(first, bound)[k].clusterId <= |Keep(first, bound)|
  {
    var r := SecondPass(first, bound);
    forall k | 0 <= k < |r|
      ensures 0 <= r[k].clusterId <= |Keep(first, bound)|
    {
      SecondPhase(first, bound, k);
    }
  }

  /** After the second phase every new number 1..(number of kept clusters) is in use. */
  lemma SecondPassUsesKept(first: seq<Point>, bound: int)
    requires Keep(first, bound) <= Clusters(first)
    ensures forall id :: 1 <= id <= |Keep(first, bound)| ==> id in Labels(SecondPass(first, bound))
  {
    var keep := Keep(first, bound);
    var r := SecondPass(first, bound);
    var asc := Ascending(keep);
    RemapOfPositions(asc);
    forall id | 1 <= id <= |keep|
      ensures id in Labels(r)
    {
      var original := asc[id - 1];
      assert original in keep;
      assert original in Labels(first);
      var k :| 0 <= k < |first| && Labels(first)[k] == original;
      SecondPhase(first, bound, k);
      assert Labels(r)[k] == id;
    }
  }

  /**
   * From all-unvisited points, `dbscan` leaves every label in 0..k, with k =
   * min(bound, clusters found), and uses each of 1..k.
   */
  lemma DbscanLabels(points: seq<Point>, eps: real, minPts: int, bound: int)
    requires AllUnvisited(points)
    ensures Consecutive(BoundedDbscan(points, eps, minPts, bound), KeptCount(points, eps, minPts, bound))
  {
    FirstPassConsecutive(points, 0, 0, eps, minPts);
    var (first, c) := FirstPass(points, 0, 0, eps, minPts);
    SecondPassConsecutive(first, c, bound);
  }

  /** With bound <= 0 every cluster is demoted. */
  lemma NoBoundNoClusters(points: seq<Point>, eps: real, minPts: int, bound: int)
    requires AllUnvisited(points) && bound <= 0
    ensures AllUnvisited(BoundedDbscan(points, eps, minPts, bound))
  {
    DbscanLabels(points, eps, minPts, bound);
  }

  // ---------------------------------------------------------------------
  // Writing the labels back onto the leaves
  // ---------------------------------------------------------------------

  /** `sink.x == point.x && sink.y == point.y`: integer coordinates compared as doubles. */
  predicate AtSink(s: Sink, p: Point)
  {
    s.x as real == p.x && s.y as real == p.y
  }

  /** The label of the first point from position j on that sits at the sink. */
  function FirstMatchFrom(points: seq<Point>, s: Sink, j: int): (r: Option<int>)
    requires 0 <= j <= |points|
    ensures r.None? <==> forall k :: j <= k < |points| ==> !AtSink(s, points[k])
    ensures r.Some? ==> exists k :: (j <= k < |points| && AtSink(s, points[k]) &&
                                     r.value == points[k].clusterId &&
                                     forall m :: j <= m < k ==> !AtSink(s, points[m]))
    decreases |points| - j
  {
    if j == |points| then None
    else if AtSink(s, points[j]) then Some(points[j].clusterId)
    else FirstMatchFrom(points, s, j + 1)
  }

  /** The inner loop of `assignClusterIdsToLeafNodes`, which stops at the first match. */
  method FindPoint(points: seq<Point>, s: Sink) returns (found: Option<int>)
    ensures found == FirstMatchFrom(points, s, 0)
  {
    var j := 0;
    while j < |points|
      invariant 0 <= j <= |points|
      invariant FirstMatchFrom(points, s, j) == FirstMatchFrom(points, s, 0)
    {
      if AtSink(s, points[j]) {
        return Some(points[j].clusterId);
      }
      j := j + 1;
    }
    return None;
  }

  /** A leaf's label after its sinks from position i on are looked up, starting at `current`. */
  function LeafLabel(sinks: seq<Sink>, i: int, points: seq<Point>, current: int): int
    requires 0 <= i <= |sinks|
    decreases |sinks| - i
  {
    if i == |sinks| then current
    else
      var next := match FirstMatchFrom(points, sinks[i], 0)
        case None => current
        case Some(l) => l;
      LeafLabel(sinks, i + 1, points, next)
  }

  /**
   * The last sink that matches a point decides the leaf's current; when no sink
   * matches, the label is unchanged.
   */
  lemma {:induction false} LeafLabelIsLastMatch(sinks: seq<Sink>, i: int, points: seq<Point>, current: int)
    requires 0 <= i <= |sinks|
    ensures (forall k :: i <= k < |sinks| ==> FirstMatchFrom(points, sinks[k], 0).None?) ==>
              LeafLabel(sinks, i, points, current) == current
    ensures forall k :: (i <= k < |sinks| && FirstMatchFrom(points, sinks[k], 0).Some? &&
                         (forall m :: k < m < |sinks| ==> FirstMatchFrom(points, sinks[m], 0).None?)) ==>
              LeafLabel(sinks, i, points, current) == FirstMatchFrom(points, sinks[k], 0).value
    decreases |sinks| - i
  {
    if i < |sinks| {
      var next := match FirstMatchFrom(points, sinks[i], 0)
        case None => current
        case Some(l) => l;
      LeafLabelIsLastMatch(sinks, i + 1, points, next);
    }
  }

  /** The tree after `assignClusterIdsToLeafNodes(root, points)`. */
  function AssignLeaves(t: Tree, points: seq<Point>): Tree
  {
    if t.Nil? then Nil
    else if IsLeaf(t) then t.(clusterId := LeafLabel(t.sinks, 0, points, t.clusterId))
    else t.(left := AssignLeaves(t.left, points), right := AssignLeaves(t.right, points))
  }

  /** `assignClusterIdsToLeafNodes`. */
  method AssignClusterIdsToLeafNodes(node: Tree, points: seq<Point>) returns (r: Tree)
    ensures r == AssignLeaves(node, points)
  {
    if node.Nil? {
      return Nil;
    }
    r := node;
    if node.left.Nil? && node.right.Nil? {
      var current := node.clusterId;
      for i := 0 to |node.sinks|
        invariant LeafLabel(node.sinks, i, points, current) == LeafLabel(node.sinks, 0, points, node.clusterId)
      {
        var found := FindPoint(points, node.sinks[i]);
        if found.Some? {
          current := found.value;
        }
      }
      r := r.(clusterId := current);
    }
    var l := AssignClusterIdsToLeafNodes(node.left, points);
    var rt := AssignClusterIdsToLeafNodes(node.right, points);
    r := r.(left := l, right := rt);
  }

  /** Only leaves change, only in their label, and only to the label of some point. */
  predicate LeafLabelOnly(points: seq<Point>, a: Tree, b: Tree)
  {
    a.Node? && b.Node? && Own(b) == a.(left := Nil, right := Nil, clusterId := b.clusterId) &&
    (b.clusterId == a.clusterId || (IsLeaf(a) && b.clusterId in Labels(points)))
  }

  /** A leaf ends with the label it had or with the label of some point. */
  lemma {:induction false} LeafLabelFromPoints(sinks: seq<Sink>, i: int, points: seq<Point>, current: int)
    requires 0 <= i <= |sinks|
    ensures LeafLabel(sinks, i, points, current) == current ||
            LeafLabel(sinks, i, points, current) in Labels(points)
    decreases |sinks| - i
  {
    if i < |sinks| {
      var found := FirstMatchFrom(points, sinks[i], 0);
      var next := match found
        case None => current
        case Some(l) => l;
      LeafLabelFromPoints(sinks, i + 1, points, next);
      if found.Some? {
        var k :| 0 <= k < |points| && AtSink(sinks[i], points[k]) && found.value == points[k].clusterId &&
                 forall m :: 0 <= m < k ==> !AtSink(sinks[i], points[m]);
        assert Labels(points)[k] == next;
      }
    }
  }

  lemma {:induction false} AssignLeavesPointwise(t: Tree, points: seq<Point>)
    ensures Pointwise(t, AssignLeaves(t, points), (a, b) => LeafLabelOnly(points, a, b))
  {
    if IsLeaf(t) {
      LeafLabelFromPoints(t.sinks, 0, points, t.clusterId);
    } else if t.Node? {
      AssignLeavesPointwise(t.left, points);
      AssignLeavesPointwise(t.right, points);
    }
  }

  // ---------------------------------------------------------------------
  // runDBSCANAndAssignClusters
  // ---------------------------------------------------------------------

  /** One unvisited point per collected sink, at the sink's (x, y). */
  function SinkPoints(sinks: seq<Sink>): (r: seq<Point>)
    ensures |r| == |sinks| && AllUnvisited(r)
    ensures forall k :: 0 <= k < |sinks| ==> AtSink(sinks[k], r[k])
  {
    seq(|sinks|, k requires 0 <= k < |sinks| => Point(sinks[k].x as real, sinks[k].y as real, UNVISITED))
  }

  /** The loop that turns the collected sinks into unvisited points. */
  method PointsOfSinks(sinks: seq<Sink>) returns (pts: seq<Point>)
    ensures pts == SinkPoints(sinks)
  {
    pts := [];
    for k := 0 to |sinks|
      invariant pts == SinkPoints(sinks[..k])
    {
      pts := pts + [Point(sinks[k].x as real, sinks[k].y as real, UNVISITED)];
    }
    assert sinks[..|sinks|] == sinks;
  }

  /** The tree after `runDBSCANAndAssignClusters(root, eps, minPts, bound)`. */
  function ClusterTree(root: Tree, eps: real, minPts: int, bound: int): Result<Tree>
  {
    if root.Nil? then Failure(NodeNotFound)
    else Success(AssignLeaves(root, BoundedDbscan(SinkPoints(PreorderSinks(root)), eps, minPts, bound)))
  }

  /**
   * `runDBSCANAndAssignClusters`: clusters every sink of every node (internal
   * nodes included, so a sink is counted once per node that stores it) and
   * writes the labels back. The result file is named after `root->z`, which
   * fails on a null root.
   */
  method RunDbscanAndAssignClusters(root: Tree, eps: real, minPts: int, bound: int) returns (r: Result<Tree>)
    ensures r == ClusterTree(root, eps, minPts, bound)
  {
    var sinks := CollectSinks(root, []);
    assert sinks == PreorderSinks(root);
    var pts := PointsOfSinks(sinks);
    var points := new Point[|pts|](k requires 0 <= k < |pts| => pts[k]);
    assert points[..] == pts;
    Dbscan(points, eps, minPts, bound);
    ghost var labelled := BoundedDbscan(SinkPoints(PreorderSinks(root)), eps, minPts, bound);
    assert points[..] == labelled;
    var tree := AssignClusterIdsToLeafNodes(root, points[..]);
    if root.Nil? {
      return Failure(NodeNotFound);
    }
    return Success(tree);
  }

  /**
   * After clustering from fresh points, every label a node carries is either
   * the one it had or a label in 0..bound.
   */
  lemma ClusterTreeLabels(root: Tree, eps: real, minPts: int, bound: int)
    requires root.Node?
    ensures var points := SinkPoints(PreorderSinks(root));
            Pointwise(root, ClusterTree(root, eps, minPts, bound).value,
                      (a, b) => LeafLabelOnly(BoundedDbscan(points, eps, minPts, bound), a, b))
    ensures forall l :: l in Labels(BoundedDbscan(SinkPoints(PreorderSinks(root)), eps, minPts, bound)) ==>
              0 <= l <= (if bound <= 0 then 0 else bound)
  {
    var points := SinkPoints(PreorderSinks(root));
    var labelled := BoundedDbscan(points, eps, minPts, bound);
    AssignLeavesPointwise(root, labelled);
    SinkLabelRange(PreorderSinks(root), eps, minPts, bound);
  }

  /** Clustering fresh points of sinks labels each of them with an id in 0..bound. */
  lemma SinkLabelRange(sinks: seq<Sink>, eps: real, minPts: int, bound: int)
    ensures forall l :: l in Labels(BoundedDbscan(SinkPoints(sinks), eps, minPts, bound)) ==>
              0 <= l <= (if bound <= 0 then 0 else bound)
  {
    DbscanLabels(SinkPoints(sinks), eps, minPts, bound);
  }
}