/**
 * The older `dbscan` of clusters.hpp, which marks sparse points as noise
 * instead of leaving them in cluster 0.
 */
module LegacyClustering {
  import opened Structures
  import opened Clustering

  /**
   * The loop of the older `dbscan` from point i on, with `clusterId` ids
   * issued: an unvisited sparse point is marked noise, an unvisited dense
   * one opens the next cluster.
   */
  function LegacyPass(points: seq<Point>, i: int, clusterId: int, eps: real, minPts: int): (r: (seq<Point>, int))
    requires 0 <= i <= |points| && clusterId >= 0
    ensures |r.0| == |points| && r.1 >= clusterId
    decreases |points| - i
  {
    if i == |points| then (points, clusterId)
    else if points[i].clusterId != UNVISITED then LegacyPass(points, i + 1, clusterId, eps, minPts)
    else
      var neighbors := Neighbors(points, i, eps);
      if Sparse(|neighbors|, minPts) then LegacyPass(SetLabel(points, i, NOISE), i + 1, clusterId, eps, minPts)
      else
        var next := clusterId + 1;
        assert Indices(neighbors, |points|);
        LegacyPass(Expand(points, i, neighbors, next, eps, minPts), i + 1, next, eps, minPts)
  }

  /** Every label is noise or in 0..c, and each of 1..c is used. */
  predicate NoiseOrConsecutive(points: seq<Point>, c: int)
  {
    (forall k :: 0 <= k < |points| ==> points[k].clusterId == NOISE || 0 <= points[k].clusterId <= c) &&
    (forall id :: 1 <= id <= c ==> id in Labels(points))
  }

  /** From labels in {-1, 0}, the older pass issues ids 1, 2, ... and leaves no point unvisited. */
  lemma {:induction false} LegacyPassLabels(points: seq<Point>, i: int, c: int, eps: real, minPts: int)
    requires 0 <= i <= |points| && c >= 0 && NoiseOrConsecutive(points, c)
    requires forall k :: 0 <= k < i ==> points[k].clusterId != UNVISITED
    ensures var (r, d) := LegacyPass(points, i, c, eps, minPts);
            NoiseOrConsecutive(r, d) && forall k :: 0 <= k < |r| ==> r[k].clusterId != UNVISITED
    decreases |points| - i
  {
    if i < |points| && points[i].clusterId == UNVISITED {
      var neighbors := Neighbors(points, i, eps);
      if Sparse(|neighbors|, minPts) {
        LegacyNoiseStep(points, i, c);
        LegacyPassLabels(SetLabel(points, i, NOISE), i + 1, c, eps, minPts);
      } else {
        LegacyExpandStep(points, i, c, eps, minPts);
        LegacyPassLabels(Expand(points, i, neighbors, c + 1, eps, minPts), i + 1, c + 1, eps, minPts);
      }
    } else if i < |points| {
      LegacyPassLabels(points, i + 1, c, eps, minPts);
    }
  }

  /** Marking an unvisited point as noise keeps ids 1..c in use and leaves it visited. */
  lemma LegacyNoiseStep(points: seq<Point>, i: int, c: int)
    requires 0 <= i < |points| && c >= 0 && NoiseOrConsecutive(points, c)
    requires forall k :: 0 <= k < i ==> points[k].clusterId != UNVISITED
    requires points[i].clusterId == UNVISITED
    ensures NoiseOrConsecutive(SetLabel(points, i, NOISE), c)
    ensures forall k :: 0 <= k <= i ==> SetLabel(points, i, NOISE)[k].clusterId != UNVISITED
  {
    var s := SetLabel(points, i, NOISE);
    forall id | 1 <= id <= c
      ensures id in Labels(s)
    {
      assert id in Labels(points);
      var k :| 0 <= k < |points| && Labels(points)[k] == id;
      assert k != i && Labels(s)[k] == id;
    }
  }

  /** Growing cluster c + 1 from an unvisited point puts id c + 1 in use and leaves it visited. */
  lemma LegacyExpandStep(points: seq<Point>, i: int, c: int, eps: real, minPts: int)
    requires 0 <= i < |points| && c >= 0 && NoiseOrConsecutive(points, c)
    requires forall k :: 0 <= k < i ==> points[k].clusterId != UNVISITED
    requires points[i].clusterId == UNVISITED
    ensures var r := Expand(points, i, Neighbors(points, i, eps), c + 1, eps, minPts);
      NoiseOrConsecutive(r, c + 1) && forall k :: 0 <= k <= i ==> r[k].clusterId != UNVISITED
  {
    var r := Expand(points, i, Neighbors(points, i, eps), c + 1, eps, minPts);
    var s := SetLabel(points, i, c + 1);
    forall k | 0 <= k < |r|
      ensures r[k].clusterId == NOISE || 0 <= r[k].clusterId <= c + 1
      ensures k <= i ==> r[k].clusterId != UNVISITED
    {
      if k != i {
        assert s[k] == points[k];
      }
    }
    forall id | 1 <= id <= c + 1
      ensures id in Labels(r)
    {
      if id == c + 1 {
        assert Labels(r)[i] == id;
      } else {
        assert id in Labels(points);
        var k :| 0 <= k < |points| && Labels(points)[k] == id;
        assert k != i && s[k] == points[k];
        assert Labels(r)[k] == id;
      }
    }
  }

  /** The older `dbscan`. */
  method LegacyDbscan(points: array<Point>, eps: real, minPts: int)
    modifies points
    ensures points[..] == LegacyPass(old(points[..]), 0, 0, eps, minPts).0
  {
    var clusterId := 0;
    for i := 0 to points.Length
      invariant clusterId >= 0
      invariant LegacyPass(points[..], i, clusterId, eps, minPts) == LegacyPass(old(points[..]), 0, 0, eps, minPts)
    {
      ghost var before := points[..];
      if points[i].clusterId == UNVISITED {
        var neighbors := RegionQuery(points, i, eps);
        if Sparse(|neighbors|, minPts) {
          points[i] := points[i].(clusterId := NOISE);
          assert points[..] == SetLabel(before, i, NOISE);
        } else {
          clusterId := clusterId + 1;
          ExpandCluster(points, i, neighbors, clusterId, eps, minPts);
        }
      }
    }
  }

  /** From unvisited points, no point is left at 0 and the cluster ids run 1..c. */
  lemma LegacyDbscanLabels(points: seq<Point>, eps: real, minPts: int)
    requires AllUnvisited(points)
    ensures var (r, c) := LegacyPass(points, 0, 0, eps, minPts);
            NoiseOrConsecutive(r, c) && forall k :: 0 <= k < |r| ==> r[k].clusterId != UNVISITED
  {
    LegacyPassLabels(points, 0, 0, eps, minPts);
  }
}
