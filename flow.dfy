/**
 * The per-tier flow of main.cpp: the shared node-id counter, the builder
 * and the cluster sub-trees that advance it, the zero-skew processing of
 * each cluster, and the MIV sinks each tier hands to the tier above.
 */
module Flow {
  import opened Numerics
  import opened Structures
  import opened Sorting
  import opened Builder
  import opened ClusterGroups
  import opened Subtrees

  /** The global `nodeID`, and the operations that take ids from it. */
  class Synthesizer {
    var nodeID: int

    constructor()
      ensures nodeID == 0
    {
      nodeID := 0;
    }

    /** `AbsTreeGen3D`: builds the topology of `S` with balance `B`. */
    method AbsTreeGen3D(S: seq<Sink>, B: int, cfg: Config) returns (r: Result<Tree>)
      modifies this
      ensures Threaded(r, nodeID, BuildSpec(S, B, old(nodeID), cfg))
      decreases |S|, 1
    {
      ghost var start := nodeID;
      BuildStep(S, B, start, cfg);
      var plan := DecideSplit(S, B, cfg);
      if plan.Failure? {
        return Failure(plan.error);
      }
      var root := NewNode(S, "Gray", nodeID);
      nodeID := nodeID + 1;
      if plan.value.Single? {
        return Success(root);
      }
      r := BuildCut(S, B, cfg, plan.value, root, start);
    }

    /** The recursion of `AbsTreeGen3D` on a cut: the top half left, the bottom half right. */
    method BuildCut(S: seq<Sink>, B: int, cfg: Config, plan: Plan, root: Tree, ghost start: int)
        returns (r: Result<Tree>)
      requires PlanFor(S, B, cfg) == Success(plan) && plan.Cut?
      requires root == NewNode(S, "Gray", start) && nodeID == start + 1
      modifies this
      ensures Threaded(r, nodeID, BuildSpec(S, B, start, cfg))
      decreases |S|, 0
    {
      BuildStep(S, B, start, cfg);
      var left := AbsTreeGen3D(plan.top, plan.b1, cfg);
      if left.Failure? {
        return Failure(left.error);
      }
      var right := AbsTreeGen3D(plan.bottom, plan.b2, cfg);
      if right.Failure? {
        return Failure(right.error);
      }
      r := Success(root.(left := left.value, right := right.value));
    }

    /**
     * `createClusterSubtree` on the list nodes[lo..hi] (the source copies
     * each half into a vector of its own). The root takes an id before
     * anything else, even when the list holds one node and that node is
     * returned instead.
     */
    method BuildSubtree(nodes: seq<Tree>, lo: int, hi: int) returns (r: Tree)
      requires AllNodes(nodes) && 0 <= lo <= hi <= |nodes|
      modifies this
      ensures r == SubtreeOf(nodes, lo, hi, old(nodeID))
      ensures nodeID == old(nodeID) + IdsUsed(hi - lo)
      decreases hi - lo, 1
    {
      ghost var start := nodeID;
      if lo == hi {
        SubtreeBase(nodes, lo, hi, start);
        return Nil;
      }
      var root := NewClusterRoot(nodes, lo, hi);
      if hi - lo == 1 {
        SubtreeBase(nodes, lo, hi, start);
        return nodes[lo];
      }
      r := BuildSubtreeHalves(nodes, lo, hi, root, start);
    }

    /** The recursion of `createClusterSubtree` on two or more nodes: first half left, the rest right. */
    method BuildSubtreeHalves(nodes: seq<Tree>, lo: int, hi: int, root: Tree, ghost start: int) returns (r: Tree)
      requires AllNodes(nodes) && 0 <= lo && lo + 2 <= hi <= |nodes|
      requires root == ClusterRoot(nodes, lo, hi, start, Nil, Nil) && nodeID == start + 1
      modifies this
      ensures r == SubtreeOf(nodes, lo, hi, start)
      ensures nodeID == start + IdsUsed(hi - lo)
      decreases hi - lo, 0
    {
      var mid := lo + (hi - lo) / 2;
      SubtreeStep(nodes, lo, mid, hi, start);
      var left := BuildSubtree(nodes, lo, mid);
      var right := BuildSubtree(nodes, mid, hi);
      r := root.(left := left, right := right);
    }

    /**
     * The first steps of `createClusterSubtree` on a non-empty list: a
     * childless "ClusterRoot" node takes the next id, the first node's label
     * and tier, and the truncated mean position of the list.
     */
    method NewClusterRoot(nodes: seq<Tree>, lo: int, hi: int) returns (root: Tree)
      requires AllNodes(nodes) && 0 <= lo < hi <= |nodes|
      modifies this
      ensures root == ClusterRoot(nodes, lo, hi, old(nodeID), Nil, Nil)
      ensures nodeID == old(nodeID) + 1
    {
      root := NewNode([], "ClusterRoot", nodeID);
      nodeID := nodeID + 1;
      root := root.(clusterId := nodes[lo].clusterId);
      var x, y := Centre(nodes, lo, hi);
      root := root.(x := x, y := y, z := nodes[lo].z);
    }

    /** `createClusterSubtree`. */
    method CreateClusterSubtree(clusterNodes: seq<Tree>) returns (r: Tree)
      requires AllNodes(clusterNodes)
      modifies this
      ensures r == SubtreeSpec(clusterNodes, old(nodeID))
      ensures nodeID == old(nodeID) + IdsUsed(|clusterNodes|)
    {
      r := BuildSubtree(clusterNodes, 0, |clusterNodes|);
    }

    /**
     * `createClusterSubtrees`: one sub-tree per label of the tree other than
     * noise, visiting the groups in ascending label order.
     */
    method CreateClusterSubtrees(root: Tree) returns (clusterRoots: seq<Tree>)
      modifies this
      ensures clusterRoots == ClusterSubtrees(root, old(nodeID))
      ensures nodeID == old(nodeID) + ClusterSubtreeIds(root)
    {
      var clusters := CollectNodesByClusterId(root, map[]);
      GroupsHoldNodes(root);
      clusterRoots := SubtreesOfKeys(clusters, Ascending(clusters.Keys));
    }

    /** The loop of `createClusterSubtrees` over the keys of the map, skipping noise. */
    method SubtreesOfKeys(clusters: map<int, seq<Tree>>, keys: seq<int>) returns (clusterRoots: seq<Tree>)
      requires WellFormed(clusters) && forall j :: 0 <= j < |keys| ==> keys[j] in clusters
      modifies this
      ensures Grouped(clusters, NonNoise(keys))
      ensures clusterRoots == SubtreesSpec(clusters, NonNoise(keys), old(nodeID))
      ensures nodeID == old(nodeID) + SubtreesIds(clusters, NonNoise(keys))
    {
      ghost var start := nodeID;
      ghost var labels: seq<int> := [];
      clusterRoots := [];
      for i := 0 to |keys|
        invariant labels == NonNoise(keys[..i]) && Grouped(clusters, labels)
        invariant clusterRoots == SubtreesSpec(clusters, labels, start)
        invariant nodeID == start + SubtreesIds(clusters, labels)
      {
        KeysStep(clusters, keys, i, start);
        if keys[i] != NOISE {
          var clusterRoot := CreateClusterSubtree(clusters[keys[i]]);
          clusterRoots := clusterRoots + [clusterRoot];
          labels := labels + [keys[i]];
        }
      }
      assert keys[..|keys|] == keys;
    }
  }

  /**
   * One more key of the map: noise changes nothing; any other label is
   * visited next, its sub-tree built after the ids the earlier ones took.
   */
  lemma KeysStep(clusters: map<int, seq<Tree>>, keys: seq<int>, i: int, start: int)
    requires WellFormed(clusters) && forall j :: 0 <= j < |keys| ==> keys[j] in clusters
    requires 0 <= i < |keys| && Grouped(clusters, NonNoise(keys[..i]))
    ensures Grouped(clusters, NonNoise(keys[..i + 1]))
    ensures keys[i] == NOISE ==> NonNoise(keys[..i + 1]) == NonNoise(keys[..i])
    ensures keys[i] != NOISE ==>
      var labels := NonNoise(keys[..i]);
      keys[i] in clusters && AllNodes(clusters[keys[i]]) &&
      NonNoise(keys[..i + 1]) == labels + [keys[i]] &&
      SubtreesSpec(clusters, labels + [keys[i]], start) ==
        SubtreesSpec(clusters, labels, start) + [SubtreeSpec(clusters[keys[i]], start + SubtreesIds(clusters, labels))] &&
      SubtreesIds(clusters, labels + [keys[i]]) == SubtreesIds(clusters, labels) + IdsUsed(|clusters[keys[i]]|)
  {
    assert keys[..i + 1] == keys[..i] + [keys[i]];
    NonNoiseSnoc(keys[..i], keys[i]);
    if keys[i] != NOISE {
      SubtreesSnoc(clusters, NonNoise(keys[..i]), keys[i], start);
      SubtreesIdsSnoc(clusters, NonNoise(keys[..i]), keys[i]);
    }
  }

  /**
   * A method's result and final counter agree with a specification that
   * gives the result with the counter's final value: a failure is the same
   * failure (the counter is then of no further use), a success the same value.
   */
  predicate Threaded<T(==)>(r: Result<T>, after: int, spec: Result<(T, int)>)
  {
    (spec.Failure? ==> r == Failure(spec.error)) &&
    (spec.Success? ==> r == Success(spec.value.0) && after == spec.value.1)
  }

  /** The loop of `createClusterSubtree` that sums the positions, and the truncated means. */
  method Centre(nodes: seq<Tree>, lo: int, hi: int) returns (x: int, y: int)
    requires AllNodes(nodes) && 0 <= lo < hi <= |nodes|
    ensures x == CentreX(nodes, lo, hi) && y == CentreY(nodes, lo, hi)
  {
    var sumX, sumY := 0, 0;
    for k := lo to hi
      invariant AllNodes(nodes[lo..k])
      invariant sumX == SumX(nodes[lo..k]) && sumY == SumY(nodes[lo..k])
    {
      assert nodes[lo..k + 1] == nodes[lo..k] + [nodes[k]];
      assert nodes[k] in nodes;
      SumsSnoc(nodes[lo..k], nodes[k]);
      sumX := sumX + nodes[k].x;
      sumY := sumY + nodes[k].y;
    }
    SliceHoldsNodes(nodes, lo, hi);
    x := Trunc(Mean(sumX, hi - lo));
    y := Trunc(Mean(sumY, hi - lo));
  }
}
