/**
 * `createClusterSubtree(s)` of clusters.hpp (repeated in tree.hpp): the
 * balanced sub-tree that gathers one group of nodes under "ClusterRoot"
 * nodes, and one such sub-tree per label of a tree.
 */
module Subtrees {
  import opened Numerics
  import opened Structures
  import opened Sorting
  import opened ClusterGroups

  /**
   * `new Node({}, "ClusterRoot", 0.0, 0.0, false, id)` over nodes[lo..hi],
   * placed at the truncated mean position of those nodes, on the first one's
   * tier and with its label.
   */
  function ClusterRoot(nodes: seq<Tree>, lo: int, hi: int, id: int, left: Tree, right: Tree): Tree
    requires AllNodes(nodes) && 0 <= lo < hi <= |nodes|
  {
    Node(id, [], left, right, "ClusterRoot", 0.0, 0.0, 0.0, false,
         CentreX(nodes, lo, hi), CentreY(nodes, lo, hi), nodes[lo].z,
         "undefined", nodes[lo].clusterId, 0.0)
  }

  /** The mean x of nodes[lo..hi], truncated to the node's integer coordinate. */
  function CentreX(nodes: seq<Tree>, lo: int, hi: int): int
    requires AllNodes(nodes) && 0 <= lo < hi <= |nodes|
  {
    SliceHoldsNodes(nodes, lo, hi);
    Trunc(Mean(SumX(nodes[lo..hi]), hi - lo))
  }

  /** The mean y of nodes[lo..hi], truncated to the node's integer coordinate. */
  function CentreY(nodes: seq<Tree>, lo: int, hi: int): int
    requires AllNodes(nodes) && 0 <= lo < hi <= |nodes|
  {
    SliceHoldsNodes(nodes, lo, hi);
    Trunc(Mean(SumY(nodes[lo..hi]), hi - lo))
  }

  lemma SliceHoldsNodes(nodes: seq<Tree>, lo: int, hi: int)
    requires AllNodes(nodes) && 0 <= lo <= hi <= |nodes|
    ensures AllNodes(nodes[lo..hi])
  {
    assert forall n :: n in nodes[lo..hi] ==> n in nodes;
  }

  /** The input nodes hanging below the ClusterRoot levels of a tree built from n nodes. */
  function Frontier(t: Tree, n: nat): seq<Tree>
  {
    if n == 0 then []
    else if n == 1 then [t]
    else if t.Nil? then []
    else Frontier(t.left, n / 2) + Frontier(t.right, n - n / 2)
  }

  /** The ClusterRoot nodes of a tree built from n nodes, in pre-order. */
  function Spine(t: Tree, n: nat): seq<Tree>
  {
    if n <= 1 || t.Nil? then []
    else [t] + Spine(t.left, n / 2) + Spine(t.right, n - n / 2)
  }

  /**
   * Ids taken by `createClusterSubtree` on n nodes: one per call on a
   * non-empty list (the one-node call's root is discarded, its id is not),
   * that is one per node and one per "ClusterRoot" above two or more.
   */
  function IdsUsed(n: int): int
  {
    if n <= 0 then 0 else 2 * n - 1
  }

  /** The counter when the right half of nodes[lo..hi] starts: after the root and the left half nodes[lo..mid]. */
  function RightNext(next: int, lo: int, mid: int): int
  {
    next + 1 + IdsUsed(mid - lo)
  }

  /**
   * `createClusterSubtree` on the list nodes[lo..hi] with the id counter at
   * `next`. The first half of the list goes left, the rest right; the right
   * half starts counting after the ids the root and the left half took.
   */
  function SubtreeOf(nodes: seq<Tree>, lo: int, hi: int, next: int): Tree
    requires AllNodes(nodes) && 0 <= lo <= hi <= |nodes|
    decreases hi - lo
  {
    if hi - lo == 0 then Nil
    else if hi - lo == 1 then nodes[lo]
    else
      var mid := lo + (hi - lo) / 2;
      ClusterRoot(nodes, lo, hi, next,
                  SubtreeOf(nodes, lo, mid, next + 1),
                  SubtreeOf(nodes, mid, hi, RightNext(next, lo, mid)))
  }

  /** `SubtreeOf` on no node and on one node. */
  lemma SubtreeBase(nodes: seq<Tree>, lo: int, hi: int, next: int)
    requires AllNodes(nodes) && 0 <= lo <= hi <= |nodes| && hi <= lo + 1
    ensures lo == hi ==> SubtreeOf(nodes, lo, hi, next) == Nil
    ensures lo + 1 == hi ==> SubtreeOf(nodes, lo, hi, next) == nodes[lo]
  {
  }

  /** One level of `SubtreeOf` on two or more nodes, split at `mid`. */
  lemma SubtreeStep(nodes: seq<Tree>, lo: int, mid: int, hi: int, next: int)
    requires AllNodes(nodes) && 0 <= lo && lo + 2 <= hi <= |nodes| && mid == lo + (hi - lo) / 2
    ensures SubtreeOf(nodes, lo, hi, next) ==
              ClusterRoot(nodes, lo, hi, next,
                          SubtreeOf(nodes, lo, mid, next + 1),
                          SubtreeOf(nodes, mid, hi, RightNext(next, lo, mid)))
  {
  }

  /** What `createClusterSubtree(nodes)` returns with the counter at `next`. */
  function SubtreeSpec(nodes: seq<Tree>, next: int): Tree
    requires AllNodes(nodes)
  {
    SubtreeOf(nodes, 0, |nodes|, next)
  }

  /** The root of a non-empty list's sub-tree is a node with the first node's label and tier. */
  lemma SubtreeRoot(nodes: seq<Tree>, lo: int, hi: int, next: int)
    requires AllNodes(nodes) && 0 <= lo <= hi <= |nodes|
    ensures SubtreeOf(nodes, lo, hi, next).Nil? <==> lo == hi
    ensures lo < hi ==> SubtreeOf(nodes, lo, hi, next).clusterId == nodes[lo].clusterId
    ensures lo < hi ==> SubtreeOf(nodes, lo, hi, next).z == nodes[lo].z
  {
    if lo < hi {
      assert nodes[lo] in nodes;
    }
  }

  /**
   * The shape `createClusterSubtree` gives nodes[lo..hi]: nothing for no
   * nodes, the node itself for one, otherwise a node over the shapes of the
   * first half and of the rest.
   */
  predicate Split(t: Tree, nodes: seq<Tree>, lo: int, hi: int)
    requires 0 <= lo <= hi <= |nodes|
    decreases hi - lo
  {
    if hi - lo == 0 then t.Nil?
    else if hi - lo == 1 then t == nodes[lo]
    else
      var mid := lo + (hi - lo) / 2;
      t.Node? && Split(t.left, nodes, lo, mid) && Split(t.right, nodes, mid, hi)
  }

  lemma {:induction false} SubtreeSplit(nodes: seq<Tree>, lo: int, hi: int, next: int)
    requires AllNodes(nodes) && 0 <= lo <= hi <= |nodes|
    ensures Split(SubtreeOf(nodes, lo, hi, next), nodes, lo, hi)
    decreases hi - lo
  {
    if hi - lo >= 2 {
      var mid := lo + (hi - lo) / 2;
      SubtreeSplit(nodes, lo, mid, next + 1);
      SubtreeSplit(nodes, mid, hi, RightNext(next, lo, mid));
    }
  }

  /** The split nodes, in order, hang below the inner nodes. */
  lemma {:induction false} SplitFrontier(t: Tree, nodes: seq<Tree>, lo: int, hi: int)
    requires 0 <= lo <= hi <= |nodes| && Split(t, nodes, lo, hi)
    ensures Frontier(t, hi - lo) == nodes[lo..hi]
    decreases hi - lo
  {
    if hi - lo == 1 {
      assert nodes[lo..hi] == [nodes[lo]];
    } else if hi - lo >= 2 {
      var mid := lo + (hi - lo) / 2;
      SplitFrontier(t.left, nodes, lo, mid);
      SplitFrontier(t.right, nodes, mid, hi);
      assert nodes[lo..mid] + nodes[mid..hi] == nodes[lo..hi];
    }
  }

  /** There are n - 1 inner nodes above n split nodes. */
  lemma {:induction false} SplitSpine(t: Tree, nodes: seq<Tree>, lo: int, hi: int)
    requires 0 <= lo < hi <= |nodes| && Split(t, nodes, lo, hi)
    ensures |Spine(t, hi - lo)| == hi - lo - 1
    decreases hi - lo
  {
    if hi - lo >= 2 {
      var mid := lo + (hi - lo) / 2;
      SplitSpine(t.left, nodes, lo, mid);
      SplitSpine(t.right, nodes, mid, hi);
    }
  }

  /**
   * Every inner node of a tree split over nodes[lo..hi] is the ClusterRoot
   * `createClusterSubtree` makes for its part of the list: no sinks, the
   * part's first label and tier, the part's truncated mean position.
   */
  predicate Roots(t: Tree, nodes: seq<Tree>, lo: int, hi: int)
    requires AllNodes(nodes) && 0 <= lo <= hi <= |nodes|
    decreases hi - lo
  {
    hi - lo <= 1 || t.Nil? ||
    (var mid := lo + (hi - lo) / 2;
     t.color == "ClusterRoot" && t.sinks == [] &&
     t.clusterId == nodes[lo].clusterId && t.z == nodes[lo].z &&
     t.x == CentreX(nodes, lo, hi) && t.y == CentreY(nodes, lo, hi) &&
     Roots(t.left, nodes, lo, mid) && Roots(t.right, nodes, mid, hi))
  }

  lemma {:induction false} SubtreeRoots(nodes: seq<Tree>, lo: int, hi: int, next: int)
    requires AllNodes(nodes) && 0 <= lo <= hi <= |nodes|
    ensures Roots(SubtreeOf(nodes, lo, hi, next), nodes, lo, hi)
    decreases hi - lo
  {
    if hi - lo >= 2 {
      var mid := lo + (hi - lo) / 2;
      var left := SubtreeOf(nodes, lo, mid, next + 1);
      var right := SubtreeOf(nodes, mid, hi, RightNext(next, lo, mid));
      SubtreeRoots(nodes, lo, mid, next + 1);
      SubtreeRoots(nodes, mid, hi, RightNext(next, lo, mid));
      assert SubtreeOf(nodes, lo, hi, next) == ClusterRoot(nodes, lo, hi, next, left, right);
    }
  }

  /** A ClusterRoot without sinks, with the given label and tier, inside the given box. */
  predicate GroupRoot(s: Tree, id: int, z: int, lo: int, hi: int, loY: int, hiY: int)
  {
    s.Node? && s.color == "ClusterRoot" && s.sinks == [] && s.clusterId == id && s.z == z &&
    lo <= s.x <= hi && loY <= s.y <= hiY
  }

  /** Every ClusterRoot above the frontier of a tree built from n nodes is a `GroupRoot`. */
  predicate SpineRoots(t: Tree, n: nat, id: int, z: int, lo: int, hi: int, loY: int, hiY: int)
  {
    n <= 1 || t.Nil? ||
    (GroupRoot(t, id, z, lo, hi, loY, hiY) &&
     SpineRoots(t.left, n / 2, id, z, lo, hi, loY, hiY) &&
     SpineRoots(t.right, n - n / 2, id, z, lo, hi, loY, hiY))
  }

  /** Nodes sharing one label and one tier, inside one box. */
  predicate SameGroup(nodes: seq<Tree>, id: int, z: int, lo: int, hi: int, loY: int, hiY: int)
  {
    forall n :: n in nodes ==> n.Node? && n.clusterId == id && n.z == z && lo <= n.x <= hi && loY <= n.y <= hiY
  }

  /**
   * When the group shares one label and one tier, every ClusterRoot above it
   * carries that label and tier, has no sinks, and sits inside the group's
   * bounding box.
   */
  lemma {:induction false} SpineOfGroup(t: Tree, nodes: seq<Tree>, first: int, last: int,
                                        id: int, z: int, lo: int, hi: int, loY: int, hiY: int)
    requires AllNodes(nodes) && 0 <= first <= last <= |nodes| && SameGroup(nodes, id, z, lo, hi, loY, hiY)
    requires Roots(t, nodes, first, last)
    ensures SpineRoots(t, last - first, id, z, lo, hi, loY, hiY)
    decreases last - first
  {
    if last - first >= 2 && t.Node? {
      var mid := first + (last - first) / 2;
      SpineOfGroup(t.left, nodes, first, mid, id, z, lo, hi, loY, hiY);
      SpineOfGroup(t.right, nodes, mid, last, id, z, lo, hi, loY, hiY);
      assert nodes[first] in nodes;
      CentreInBox(nodes, first, last, lo, hi, loY, hiY);
    }
  }

  /** The truncated mean position of nodes[first..last] lies inside their bounding box. */
  lemma CentreInBox(nodes: seq<Tree>, first: int, last: int, lo: int, hi: int, loY: int, hiY: int)
    requires AllNodes(nodes) && 0 <= first < last <= |nodes|
    requires forall n :: n in nodes ==> lo <= n.x <= hi && loY <= n.y <= hiY
    ensures lo <= CentreX(nodes, first, last) <= hi
    ensures loY <= CentreY(nodes, first, last) <= hiY
  {
    SliceHoldsNodes(nodes, first, last);
    var part := nodes[first..last];
    assert forall n :: n in part ==> n in nodes;
    SumXBetween(part, lo, hi);
    SumYBetween(part, loY, hiY);
    MeanBetween(SumX(part), |part|, lo, hi);
    MeanBetween(SumY(part), |part|, loY, hiY);
    RoundedBetween(Mean(SumX(part), |part|), lo, hi);
    RoundedBetween(Mean(SumY(part), |part|), loY, hiY);
  }

  /**
   * `createClusterSubtree(nodes)`: the frontier is the input in order,
   * there are n - 1 ClusterRoots, and when the
   * group shares a label and a tier every ClusterRoot carries them and lies
   * inside the group's bounding box.
   */
  lemma ClusterSubtreeShape(nodes: seq<Tree>, next: int, id: int, z: int, lo: int, hi: int, loY: int, hiY: int)
    requires AllNodes(nodes) && |nodes| > 0
    ensures Frontier(SubtreeSpec(nodes, next), |nodes|) == nodes
    ensures |Spine(SubtreeSpec(nodes, next), |nodes|)| == |nodes| - 1
    ensures SameGroup(nodes, id, z, lo, hi, loY, hiY) ==>
              SpineRoots(SubtreeSpec(nodes, next), |nodes|, id, z, lo, hi, loY, hiY)
  {
    SubtreeFrontierSpine(nodes, next);
    if SameGroup(nodes, id, z, lo, hi, loY, hiY) {
      SubtreeSpineRoots(nodes, next, id, z, lo, hi, loY, hiY);
    }
  }

  /** The sub-tree of a list has the list as its frontier and one merge node fewer than it. */
  lemma SubtreeFrontierSpine(nodes: seq<Tree>, next: int)
    requires AllNodes(nodes) && |nodes| > 0
    ensures Frontier(SubtreeSpec(nodes, next), |nodes|) == nodes
    ensures |Spine(SubtreeSpec(nodes, next), |nodes|)| == |nodes| - 1
  {
    var n := |nodes|;
    var t := SubtreeSpec(nodes, next);
    SubtreeSplit(nodes, 0, n, next);
    SplitFrontier(t, nodes, 0, n);
    assert nodes[0..n] == nodes;
    SplitSpine(t, nodes, 0, n);
  }

  /** For a list from one group, every merge node of its sub-tree carries the group's label and tier. */
  lemma SubtreeSpineRoots(nodes: seq<Tree>, next: int, id: int, z: int, lo: int, hi: int, loY: int, hiY: int)
    requires AllNodes(nodes) && |nodes| > 0 && SameGroup(nodes, id, z, lo, hi, loY, hiY)
    ensures SpineRoots(SubtreeSpec(nodes, next), |nodes|, id, z, lo, hi, loY, hiY)
  {
    var n := |nodes|;
    SubtreeRoots(nodes, 0, n, next);
    SpineOfGroup(SubtreeSpec(nodes, next), nodes, 0, n, id, z, lo, hi, loY, hiY);
  }

  /** The labels other than noise, in order. */
  function NonNoise(ids: seq<int>): (r: seq<int>)
    ensures forall x :: x in r <==> x in ids && x != NOISE
  {
    if |ids| == 0 then []
    else (if ids[0] != NOISE then [ids[0]] else []) + NonNoise(ids[1..])
  }

  /** Dropping noise keeps an increasing list increasing. */
  lemma {:induction false} NonNoiseIncreasing(ids: seq<int>)
    requires StrictlyIncreasing(ids)
    ensures StrictlyIncreasing(NonNoise(ids))
    decreases |ids|
  {
    if |ids| > 0 {
      var rest := NonNoise(ids[1..]);
      NonNoiseIncreasing(ids[1..]);
      forall k | 0 <= k < |rest|
        ensures ids[0] < rest[k]
      {
        assert rest[k] in ids[1..];
        var j :| 0 <= j < |ids[1..]| && ids[1..][j] == rest[k];
        assert ids[j + 1] == rest[k];
      }
    }
  }

  /** Noise is dropped wherever it stands. */
  lemma {:induction false} NonNoiseSnoc(ids: seq<int>, x: int)
    ensures NonNoise(ids + [x]) == NonNoise(ids) + (if x != NOISE then [x] else [])
    decreases |ids|
  {
    if |ids| > 0 {
      assert (ids + [x])[1..] == ids[1..] + [x];
      NonNoiseSnoc(ids[1..], x);
    } else {
      assert NonNoise([x][1..]) == [];
    }
  }

  /** The labels `createClusterSubtrees` visits: ascending, noise skipped. */
  function SubtreeLabels(t: Tree): seq<int>
  {
    NonNoise(Ascending(Groups(t).Keys))
  }

  /** Labels each with a non-empty group of nodes. */
  predicate Grouped(groups: map<int, seq<Tree>>, labels: seq<int>)
  {
    forall j :: 0 <= j < |labels| ==> labels[j] in groups && AllNodes(groups[labels[j]]) && |groups[labels[j]]| > 0
  }

  /** One sub-tree per label of `labels`, threading the counter. */
  function SubtreesSpec(groups: map<int, seq<Tree>>, labels: seq<int>, next: int): (r: seq<Tree>)
    requires Grouped(groups, labels)
    ensures |r| == |labels|
    decreases |labels|
  {
    if |labels| == 0 then []
    else
      var nodes := groups[labels[0]];
      [SubtreeSpec(nodes, next)] + SubtreesSpec(groups, labels[1..], next + IdsUsed(|nodes|))
  }

  /** The ids the sub-trees of `labels` take together. */
  function SubtreesIds(groups: map<int, seq<Tree>>, labels: seq<int>): (n: int)
    requires Grouped(groups, labels)
    ensures n >= |labels|
    decreases |labels|
  {
    if |labels| == 0 then 0
    else
      IdsUsed(|groups[labels[0]]|) + SubtreesIds(groups, labels[1..])
  }

  /**
   * Visiting one more label appends its sub-tree, built with the counter
   * advanced past every earlier sub-tree.
   */
  lemma {:induction false} SubtreesSnoc(groups: map<int, seq<Tree>>, labels: seq<int>, l: int, next: int)
    requires Grouped(groups, labels) && l in groups && AllNodes(groups[l]) && |groups[l]| > 0
    ensures Grouped(groups, labels + [l])
    ensures SubtreesSpec(groups, labels + [l], next) ==
            SubtreesSpec(groups, labels, next) + [SubtreeSpec(groups[l], next + SubtreesIds(groups, labels))]
    decreases |labels|
  {
    GroupedSnoc(groups, labels, l);
    if |labels| > 0 {
      var nodes := groups[labels[0]];
      var after := next + IdsUsed(|nodes|);
      assert (labels + [l])[0] == labels[0];
      assert (labels + [l])[1..] == labels[1..] + [l];
      SubtreesSnoc(groups, labels[1..], l, after);
      assert after + SubtreesIds(groups, labels[1..]) == next + SubtreesIds(groups, labels);
    }
  }

  lemma GroupedSnoc(groups: map<int, seq<Tree>>, labels: seq<int>, l: int)
    requires Grouped(groups, labels) && l in groups && AllNodes(groups[l]) && |groups[l]| > 0
    ensures Grouped(groups, labels + [l])
  {
    forall j | 0 <= j < |labels| + 1
      ensures (labels + [l])[j] in groups && AllNodes(groups[(labels + [l])[j]]) && |groups[(labels + [l])[j]]| > 0
    {
      if j < |labels| {
        assert (labels + [l])[j] == labels[j];
      }
    }
  }

  lemma {:induction false} SubtreesIdsSnoc(groups: map<int, seq<Tree>>, labels: seq<int>, l: int)
    requires Grouped(groups, labels) && l in groups && AllNodes(groups[l]) && |groups[l]| > 0
    ensures Grouped(groups, labels + [l])
    ensures SubtreesIds(groups, labels + [l]) == SubtreesIds(groups, labels) + IdsUsed(|groups[l]|)
    decreases |labels|
  {
    GroupedSnoc(groups, labels, l);
    if |labels| > 0 {
      assert (labels + [l])[1..] == labels[1..] + [l];
      SubtreesIdsSnoc(groups, labels[1..], l);
    }
  }

  /** Each sub-tree root is a node carrying its group's label. */
  lemma {:induction false} SubtreesRoots(groups: map<int, seq<Tree>>, labels: seq<int>, next: int)
    requires Grouped(groups, labels)
    requires forall id, n :: id in labels && id in groups && n in groups[id] ==> n.clusterId == id
    ensures forall j :: 0 <= j < |labels| ==>
              SubtreesSpec(groups, labels, next)[j].Node? &&
              SubtreesSpec(groups, labels, next)[j].clusterId == labels[j]
    decreases |labels|
  {
    if |labels| > 0 {
      var nodes := groups[labels[0]];
      assert labels[0] in labels && nodes[0] in nodes;
      SubtreeRoot(nodes, 0, |nodes|, next);
      var later := next + IdsUsed(|nodes|);
      SubtreesRoots(groups, labels[1..], later);
      var rest := SubtreesSpec(groups, labels[1..], later);
      assert SubtreesSpec(groups, labels, next) == [SubtreeSpec(nodes, next)] + rest;
      forall j | 1 <= j < |labels|
        ensures rest[j - 1].Node? && rest[j - 1].clusterId == labels[j]
      {
        assert labels[1..][j - 1] == labels[j];
      }
    }
  }

  /** What `createClusterSubtrees(root)` returns with the counter at `next`. */
  function ClusterSubtrees(t: Tree, next: int): seq<Tree>
  {
    GroupsHoldNodes(t);
    SubtreesSpec(Groups(t), SubtreeLabels(t), next)
  }

  /** The ids `createClusterSubtrees(t)` takes from the counter. */
  function ClusterSubtreeIds(t: Tree): int
  {
    GroupsHoldNodes(t);
    SubtreesIds(Groups(t), SubtreeLabels(t))
  }

  /**
   * One sub-tree per label other than noise (0 included), in ascending label
   * order, each rooted at a node carrying its label.
   */
  lemma SubtreeLabelsOrder(t: Tree)
    ensures StrictlyIncreasing(SubtreeLabels(t))
    ensures forall id :: id in SubtreeLabels(t) <==> id in NodeLabels(t) && id != NOISE
    ensures |SubtreeLabels(t)| == |NodeLabels(t) - {NOISE}|
  {
    GroupsOfTree(t);
    var keys := Groups(t).Keys;
    NonNoiseIncreasing(Ascending(keys));
    SameElementsIncreasing(SubtreeLabels(t), Ascending(keys - {NOISE}));
  }

  lemma ClusterSubtreesLabels(t: Tree, next: int)
    ensures |ClusterSubtrees(t, next)| == |NodeLabels(t) - {NOISE}|
    ensures forall j :: 0 <= j < |SubtreeLabels(t)| ==>
              ClusterSubtrees(t, next)[j].Node? &&
              ClusterSubtrees(t, next)[j].clusterId == SubtreeLabels(t)[j]
  {
    SubtreeLabelsOrder(t);
    GroupsHoldNodes(t);
    GroupsCarryLabels(t);
    SubtreesRoots(Groups(t), SubtreeLabels(t), next);
  }
}
