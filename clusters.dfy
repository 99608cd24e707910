/**
 * The cluster helpers of clusters.hpp (repeated in tree.hpp): grouping the
 * nodes of a tree by label, the midpoint of each group, and relabelling a
 * whole tree.
 */
module ClusterGroups {
  import opened Numerics
  import opened Structures
  import opened Sorting

  // ---------------------------------------------------------------------
  // collectNodesByClusterId
  // ---------------------------------------------------------------------

  /** A map entry, or the empty list `operator[]` would create. */
  function Get(groups: map<int, seq<Tree>>, id: int): seq<Tree>
  {
    if id in groups then groups[id] else []
  }

  /** `clusters[node->cluster_id].push_back(node)`. */
  function AddNode(groups: map<int, seq<Tree>>, n: Tree): map<int, seq<Tree>>
    requires n.Node?
  {
    groups[n.clusterId := Get(groups, n.clusterId) + [n]]
  }

  /** The groups after `collectNodesByClusterId(t, groups)`: a pre-order walk. */
  function Collect(t: Tree, groups: map<int, seq<Tree>>): map<int, seq<Tree>>
  {
    if t.Nil? then groups
    else Collect(t.right, Collect(t.left, AddNode(groups, t)))
  }

  /** `collectNodesByClusterId`. */
  method CollectNodesByClusterId(node: Tree, clusters: map<int, seq<Tree>>) returns (r: map<int, seq<Tree>>)
    ensures r == Collect(node, clusters)
  {
    if node.Nil? {
      return clusters;
    }
    r := clusters[node.clusterId := Get(clusters, node.clusterId) + [node]];
    assert r == AddNode(clusters, node);
    r := CollectNodesByClusterId(node.left, r);
    r := CollectNodesByClusterId(node.right, r);
  }

  /** The nodes of `nodes` labelled `id`, in order. */
  function WithLabel(nodes: seq<Tree>, id: int): seq<Tree>
  {
    if |nodes| == 0 then []
    else (if nodes[0].Node? && nodes[0].clusterId == id then [nodes[0]] else []) + WithLabel(nodes[1..], id)
  }

  lemma {:induction false} WithLabelMembers(nodes: seq<Tree>, id: int)
    ensures forall n :: n in WithLabel(nodes, id) <==> n in nodes && n.Node? && n.clusterId == id
  {
    if |nodes| > 0 {
      WithLabelMembers(nodes[1..], id);
      assert nodes == [nodes[0]] + nodes[1..];
    }
  }

  lemma {:induction false} WithLabelAppend(a: seq<Tree>, b: seq<Tree>, id: int)
    ensures WithLabel(a + b, id) == WithLabel(a, id) + WithLabel(b, id)
  {
    if |a| > 0 {
      assert (a + b)[0] == a[0] && (a + b)[1..] == a[1..] + b;
      WithLabelAppend(a[1..], b, id);
    } else {
      assert a + b == b;
    }
  }

  /** The labels the nodes of a tree carry. */
  function NodeLabels(t: Tree): set<int>
  {
    if t.Nil? then {} else {t.clusterId} + NodeLabels(t.left) + NodeLabels(t.right)
  }

  /**
   * Collecting appends to each label's list exactly the tree's nodes with that
   * label, in pre-order, and creates an entry for each label present.
   */
  lemma {:induction false} CollectKeys(t: Tree, groups: map<int, seq<Tree>>)
    ensures Collect(t, groups).Keys == groups.Keys + NodeLabels(t)
  {
    if t.Node? {
      var g1 := AddNode(groups, t);
      CollectKeys(t.left, g1);
      CollectKeys(t.right, Collect(t.left, g1));
    }
  }

  lemma {:induction false} CollectGet(t: Tree, groups: map<int, seq<Tree>>, id: int)
    ensures Get(Collect(t, groups), id) == Get(groups, id) + WithLabel(Nodes(t), id)
  {
    if t.Node? {
      var g1 := AddNode(groups, t);
      CollectGet(t.left, g1, id);
      CollectGet(t.right, Collect(t.left, g1), id);
      WithLabelNodes(t, id);
      AddNodeGet(groups, t, id);
    }
  }

  /** A node's labelled nodes: its own, then its left sub-tree's, then its right sub-tree's. */
  lemma WithLabelNodes(t: Tree, id: int)
    requires t.Node?
    ensures WithLabel(Nodes(t), id) == WithLabel([t], id) + WithLabel(Nodes(t.left), id) + WithLabel(Nodes(t.right), id)
  {
    WithLabelAppend([t] + Nodes(t.left), Nodes(t.right), id);
    WithLabelAppend([t], Nodes(t.left), id);
  }

  /** Adding a node appends it to its own label's list only. */
  lemma AddNodeGet(groups: map<int, seq<Tree>>, t: Tree, id: int)
    requires t.Node?
    ensures Get(AddNode(groups, t), id) == Get(groups, id) + WithLabel([t], id)
  {
    assert [t][1..] == [];
  }

  /** The groups `createClusterSubtrees` and `calculateClusterMidpoints` build. */
  function Groups(t: Tree): map<int, seq<Tree>>
  {
    Collect(t, map[])
  }

  /** Every node of the tree sits in exactly its own label's group, in pre-order. */
  lemma GroupsOfTree(t: Tree)
    ensures Groups(t).Keys == NodeLabels(t)
    ensures forall id :: id in Groups(t) ==> Groups(t)[id] == WithLabel(Nodes(t), id)
    ensures forall id, n :: id in Groups(t) && n in Groups(t)[id] ==> n in Nodes(t) && n.Node? && n.clusterId == id
  {
    CollectKeys(t, map[]);
    forall id | id in Groups(t)
      ensures Groups(t)[id] == WithLabel(Nodes(t), id)
      ensures forall n :: n in Groups(t)[id] ==> n in Nodes(t) && n.Node? && n.clusterId == id
    {
      CollectGet(t, map[], id);
      assert Get(Groups(t), id) == [] + WithLabel(Nodes(t), id);
      WithLabelMembers(Nodes(t), id);
    }
  }

  /** Every node of a group carries the group's label. */
  lemma GroupsCarryLabels(t: Tree)
    ensures forall id, n :: id in Groups(t) && n in Groups(t)[id] ==> n.Node? && n.clusterId == id
  {
    forall id: int, n: Tree | id in Groups(t) && n in Groups(t)[id]
      ensures n.Node? && n.clusterId == id
    {
      CollectGet(t, map[], id);
      assert Groups(t)[id] == WithLabel(Nodes(t), id);
      WithLabelMembers(Nodes(t), id);
    }
  }

  /** Every list entry is a node (no null pointers). */
  predicate AllNodes(nodes: seq<Tree>)
  {
    forall n :: n in nodes ==> n.Node?
  }

  /** Groups of nodes, none empty. */
  predicate WellFormed(groups: map<int, seq<Tree>>)
  {
    forall id :: id in groups ==> AllNodes(groups[id]) && |groups[id]| > 0
  }

  /** Each label of a tree is carried by one of its nodes. */
  lemma {:induction false} LabelHasNode(t: Tree, id: int)
    requires id in NodeLabels(t)
    ensures exists n :: n in Nodes(t) && n.clusterId == id
  {
    if t.clusterId == id {
      assert t in Nodes(t);
    } else if id in NodeLabels(t.left) {
      LabelHasNode(t.left, id);
      var n :| n in Nodes(t.left) && n.clusterId == id;
      assert n in Nodes(t);
    } else {
      LabelHasNode(t.right, id);
      var n :| n in Nodes(t.right) && n.clusterId == id;
      assert n in Nodes(t);
    }
  }

  lemma GroupsHoldNodes(t: Tree)
    ensures WellFormed(Groups(t))
  {
    GroupsOfTree(t);
    forall id | id in Groups(t)
      ensures AllNodes(Groups(t)[id]) && |Groups(t)[id]| > 0
    {
      LabelHasNode(t, id);
      WithLabelMembers(Nodes(t), id);
      var n :| n in Nodes(t) && n.clusterId == id;
      assert n in Groups(t)[id];
    }
  }

  // ---------------------------------------------------------------------
  // calculateClusterMidpoints / getMidpointByClusterId
  // ---------------------------------------------------------------------

  /** The childless entries of a list, in order. */
  function Leaves(nodes: seq<Tree>): (r: seq<Tree>)
    ensures forall n :: n in r <==> n in nodes && IsLeaf(n)
  {
    if |nodes| == 0 then []
    else Leaves(nodes[..|nodes| - 1]) + (if IsLeaf(nodes[|nodes| - 1]) then [nodes[|nodes| - 1]] else [])
  }

  /** Sums of the x and of the y coordinates. */
  function SumX(nodes: seq<Tree>): int
    requires AllNodes(nodes)
  {
    if |nodes| == 0 then 0 else SumX(nodes[..|nodes| - 1]) + nodes[|nodes| - 1].x
  }

  function SumY(nodes: seq<Tree>): int
    requires AllNodes(nodes)
  {
    if |nodes| == 0 then 0 else SumY(nodes[..|nodes| - 1]) + nodes[|nodes| - 1].y
  }

  /** `sum / count` in double arithmetic. */
  function Mean(sum: int, count: int): real
    requires count > 0
  {
    sum as real / count as real
  }

  /** (ceil(mean x), floor(mean y)) over the group's leaves. */
  function Midpoint(nodes: seq<Tree>): (real, real)
    requires AllNodes(nodes) && |Leaves(nodes)| > 0
  {
    var ls := Leaves(nodes);
    (Ceil(Mean(SumX(ls), |ls|)) as real, Floor(Mean(SumY(ls), |ls|)) as real)
  }

  /** One midpoint per group that has a leaf. */
  function Midpoints(groups: map<int, seq<Tree>>): map<int, (real, real)>
    requires forall id :: id in groups ==> AllNodes(groups[id])
  {
    map id | id in groups && |Leaves(groups[id])| > 0 :: Midpoint(groups[id])
  }

  /** What `calculateClusterMidpoints(root)` returns. */
  function ClusterMidpoints(t: Tree): map<int, (real, real)>
  {
    GroupsHoldNodes(t);
    Midpoints(Groups(t))
  }

  lemma SumsSnoc(ls: seq<Tree>, n: Tree)
    requires AllNodes(ls) && n.Node?
    ensures AllNodes(ls + [n])
    ensures SumX(ls + [n]) == SumX(ls) + n.x && SumY(ls + [n]) == SumY(ls) + n.y
  {
    assert (ls + [n])[..|ls|] == ls;
  }

  /** The inner loop of `calculateClusterMidpoints`: sums over the leaves only. */
  method LeafSums(nodes: seq<Tree>) returns (sumX: real, sumY: real, count: int)
    requires AllNodes(nodes)
    ensures sumX == SumX(Leaves(nodes)) as real && sumY == SumY(Leaves(nodes)) as real
    ensures count == |Leaves(nodes)|
  {
    sumX, sumY, count := 0.0, 0.0, 0;
    for k := 0 to |nodes|
      invariant sumX == SumX(Leaves(nodes[..k])) as real && sumY == SumY(Leaves(nodes[..k])) as real
      invariant count == |Leaves(nodes[..k])|
    {
      var n := nodes[k];
      var ls := Leaves(nodes[..k]);
      assert nodes[..k + 1][..k] == nodes[..k] && nodes[..k + 1][k] == n;
      if n.left.Nil? && n.right.Nil? {
        assert Leaves(nodes[..k + 1]) == ls + [n];
        SumsSnoc(ls, n);
        sumX := sumX + n.x as real;
        sumY := sumY + n.y as real;
        count := count + 1;
      } else {
        assert Leaves(nodes[..k + 1]) == ls;
      }
    }
    assert nodes[..|nodes|] == nodes;
  }

  /** The midpoint of one group, when it has a leaf. */
  method GroupMidpoint(nodes: seq<Tree>) returns (found: bool, mid: (real, real))
    requires AllNodes(nodes)
    ensures found <==> |Leaves(nodes)| > 0
    ensures found ==> mid == Midpoint(nodes)
  {
    var sumX, sumY, count := LeafSums(nodes);
    found := count > 0;
    mid := (0.0, 0.0);
    if found {
      mid := (Ceil(sumX / count as real) as real, Floor(sumY / count as real) as real);
    }
  }

  /** `calculateClusterMidpoints`. */
  method CalculateClusterMidpoints(root: Tree) returns (midpoints: map<int, (real, real)>)
    ensures midpoints == ClusterMidpoints(root)
  {
    var clusters := CollectNodesByClusterId(root, map[]);
    GroupsHoldNodes(root);
    midpoints := MidpointsOfGroups(clusters);
  }

  /** The loop of `calculateClusterMidpoints`: visits every group once, in no particular order. */
  method MidpointsOfGroups(clusters: map<int, seq<Tree>>) returns (midpoints: map<int, (real, real)>)
    requires WellFormed(clusters)
    ensures midpoints == Midpoints(clusters)
  {
    var pending := clusters.Keys;
    midpoints := map[];
    assert clusters - pending == map[];
    while pending != {}
      invariant pending <= clusters.Keys
      invariant midpoints == Midpoints(clusters - pending)
      decreases |pending|
    {
      ghost var some := Member(pending);
      var id :| id in pending;
      var found, mid := GroupMidpoint(clusters[id]);
      MidpointsStep(clusters, pending, id);
      if found {
        midpoints := midpoints[id := mid];
      }
      pending := pending - {id};
    }
    assert clusters - pending == clusters;
  }

  /** Visiting one more group adds its midpoint, when it has a leaf. */
  lemma MidpointsStep(groups: map<int, seq<Tree>>, pending: set<int>, id: int)
    requires WellFormed(groups) && id in pending && pending <= groups.Keys
    ensures var after := Midpoints(groups - (pending - {id}));
            var before := Midpoints(groups - pending);
            if |Leaves(groups[id])| > 0 then after == before[id := Midpoint(groups[id])]
            else after == before
  {
    var after := Midpoints(groups - (pending - {id}));
    var before := Midpoints(groups - pending);
    if |Leaves(groups[id])| > 0 {
      MidpointsExtensional(before[id := Midpoint(groups[id])], groups - (pending - {id}));
    } else {
      MidpointsExtensional(before, groups - (pending - {id}));
    }
  }

  /** A map with the keys and values of `Midpoints(groups)` is that map. */
  lemma MidpointsExtensional(m: map<int, (real, real)>, groups: map<int, seq<Tree>>)
    requires WellFormed(groups)
    requires forall id :: id in m <==> id in groups && |Leaves(groups[id])| > 0
    requires forall id :: id in m ==> m[id] == Midpoint(groups[id])
    ensures m == Midpoints(groups)
  {
    var target := Midpoints(groups);
    forall id
      ensures id in m <==> id in target
    {
      if id in groups {
        assert id in target <==> |Leaves(groups[id])| > 0;
      }
    }
    assert m.Keys == target.Keys;
    forall id | id in m
      ensures m[id] == target[id]
    {
    }
  }

  /** The sum of values within [lo, hi] lies within [n lo, n hi]. */
  lemma {:induction false} SumXBetween(nodes: seq<Tree>, lo: int, hi: int)
    requires AllNodes(nodes)
    requires forall n :: n in nodes ==> lo <= n.x <= hi
    ensures lo * |nodes| <= SumX(nodes) <= hi * |nodes|
  {
    if |nodes| > 0 {
      var m := |nodes| - 1;
      assert nodes[m] in nodes;
      SumXBetween(nodes[..m], lo, hi);
      assert lo * (m + 1) == lo * m + lo && hi * (m + 1) == hi * m + hi;
    }
  }

  lemma {:induction false} SumYBetween(nodes: seq<Tree>, lo: int, hi: int)
    requires AllNodes(nodes)
    requires forall n :: n in nodes ==> lo <= n.y <= hi
    ensures lo * |nodes| <= SumY(nodes) <= hi * |nodes|
  {
    if |nodes| > 0 {
      var m := |nodes| - 1;
      assert nodes[m] in nodes;
      SumYBetween(nodes[..m], lo, hi);
      assert lo * (m + 1) == lo * m + lo && hi * (m + 1) == hi * m + hi;
    }
  }

  /** A mean of integers within [lo, hi] lies within [lo, hi]. */
  lemma MeanBetween(sum: int, count: int, lo: int, hi: int)
    requires count > 0 && lo * count <= sum <= hi * count
    ensures lo as real <= Mean(sum, count) <= hi as real
  {
    var m := Mean(sum, count);
    assert m * count as real == sum as real;
    assert (lo * count) as real == lo as real * count as real;
    assert (hi * count) as real == hi as real * count as real;
    if m < lo as real {
      MulPositive(lo as real - m, count as real);
    }
    if m > hi as real {
      MulPositive(m - hi as real, count as real);
    }
  }

  /** Rounding a value that lies between two integers stays between them. */
  lemma RoundedBetween(v: real, lo: int, hi: int)
    requires lo as real <= v <= hi as real
    ensures lo <= Ceil(v) <= hi && lo <= Floor(v) <= hi && lo <= Trunc(v) <= hi
  {
  }

  /** The midpoint lies in the bounding box of the group's leaves. */
  lemma MidpointInBox(nodes: seq<Tree>, lo: int, hi: int, loY: int, hiY: int)
    requires AllNodes(nodes) && |Leaves(nodes)| > 0
    requires forall n :: n in Leaves(nodes) ==> lo <= n.x <= hi && loY <= n.y <= hiY
    ensures lo as real <= Midpoint(nodes).0 <= hi as real
    ensures loY as real <= Midpoint(nodes).1 <= hiY as real
  {
    var ls := Leaves(nodes);
    SumXBetween(ls, lo, hi);
    SumYBetween(ls, loY, hiY);
    MeanBetween(SumX(ls), |ls|, lo, hi);
    MeanBetween(SumY(ls), |ls|, loY, hiY);
    RoundedBetween(Mean(SumX(ls), |ls|), lo, hi);
    RoundedBetween(Mean(SumY(ls), |ls|), loY, hiY);
  }

  /** `Point{first, second}`: the label is value-initialised to 0. */
  function GetMidpointByClusterId(midpoints: map<int, (real, real)>, clusterId: int): (p: Point)
    ensures p.clusterId == UNVISITED
    ensures clusterId !in midpoints ==> p.x == -1.0 && p.y == -1.0
    ensures clusterId in midpoints ==> p == At(midpoints[clusterId].0, midpoints[clusterId].1)
  {
    if clusterId in midpoints then At(midpoints[clusterId].0, midpoints[clusterId].1)
    else At(-1.0, -1.0)
  }

  /**
   * A label carried by some leaf has a midpoint inside the box of its
   * leaves; any other label reads as (-1, -1).
   */
  lemma MidpointOfLabel(t: Tree, id: int, lo: int, hi: int, loY: int, hiY: int)
    requires forall n :: n in Nodes(t) && IsLeaf(n) && n.clusterId == id ==>
               lo <= n.x <= hi && loY <= n.y <= hiY
    ensures var p := GetMidpointByClusterId(ClusterMidpoints(t), id);
            if exists n :: n in Nodes(t) && IsLeaf(n) && n.clusterId == id
            then lo as real <= p.x <= hi as real && loY as real <= p.y <= hiY as real
            else p == At(-1.0, -1.0)
  {
    GroupsOfTree(t);
    GroupsHoldNodes(t);
    var groups := Groups(t);
    if n :| n in Nodes(t) && IsLeaf(n) && n.clusterId == id {
      assert id in NodeLabels(t) by {
        NodeInLabels(t, n);
      }
      WithLabelMembers(Nodes(t), id);
      assert n in groups[id];
      assert n in Leaves(groups[id]);
      MidpointInBox(groups[id], lo, hi, loY, hiY);
    } else if id in groups {
      NoMembers(Leaves(groups[id]));
    }
  }

  /** A sequence without members is empty. */
  lemma NoMembers(s: seq<Tree>)
    ensures (forall n :: n !in s) ==> s == []
  {
    if s != [] {
      assert s[0] in s;
    }
  }

  /** A node's label is among the tree's labels. */
  lemma {:induction false} NodeInLabels(t: Tree, n: Tree)
    requires n in Nodes(t)
    ensures n.clusterId in NodeLabels(t)
  {
    if n != t {
      assert n in Nodes(t.left) || n in Nodes(t.right);
      if n in Nodes(t.left) {
        NodeInLabels(t.left, n);
      } else {
        NodeInLabels(t.right, n);
      }
    }
  }

  // ---------------------------------------------------------------------
  // assignClusterIdToTree
  // ---------------------------------------------------------------------

  /** The tree after `assignClusterIdToTree(t, id)`. */
  function Relabel(t: Tree, id: int): Tree
  {
    if t.Nil? then Nil
    else t.(clusterId := id, left := Relabel(t.left, id), right := Relabel(t.right, id))
  }

  /** `assignClusterIdToTree`. */
  method AssignClusterIdToTree(node: Tree, clusterId: int) returns (r: Tree)
    ensures r == Relabel(node, clusterId)
  {
    if node.Nil? {
      return Nil;
    }
    r := node.(clusterId := clusterId);
    var l := AssignClusterIdToTree(node.left, clusterId);
    var rt := AssignClusterIdToTree(node.right, clusterId);
    r := r.(left := l, right := rt);
  }

  /** Node `b` is node `a` with only its label set to `id`. */
  predicate LabelOnly(id: int, a: Tree, b: Tree)
  {
    a.Node? && b.Node? && Own(b) == a.(left := Nil, right := Nil, clusterId := id)
  }

  /** Every node takes the label; nothing else changes. */
  lemma {:induction false} RelabelPointwise(t: Tree, id: int)
    ensures Pointwise(t, Relabel(t, id), (a, b) => LabelOnly(id, a, b))
    ensures NodeLabels(Relabel(t, id)) == if t.Nil? then {} else {id}
  {
    if t.Node? {
      RelabelPointwise(t.left, id);
      RelabelPointwise(t.right, id);
    }
  }
}
