/**
 * Read-only queries over a clock tree, the leaf-location pass and the
 * wirelength of an embedded tree.
 */
module TreeQueries {
  import opened Numerics
  import opened Structures
  import opened Utilities

  /** `findNodeById`: the first node in pre-order with the given id, or null. */
  function FindNodeById(node: Tree, id: int): (r: Tree)
    ensures r.Node? ==> r.id == id && r in Nodes(node)
    ensures r.Nil? <==> id !in Ids(node)
  {
    if node.Nil? then Nil
    else if node.id == id then node
    else
      var leftResult := FindNodeById(node.left, id);
      if leftResult.Node? then leftResult else FindNodeById(node.right, id)
  }

  /**
   * `findLCA`: the root if it carries either id; otherwise the root when both
   * subtrees report a hit, else whichever subtree reported one.
   */
  function FindLCA(root: Tree, id1: int, id2: int): (r: Tree)
    ensures r.Nil? || r in Nodes(root)
    ensures r.Nil? <==> id1 !in Ids(root) && id2 !in Ids(root)
  {
    if root.Nil? || root.id == id1 || root.id == id2 then root
    else
      var leftLCA := FindLCA(root.left, id1, id2);
      var rightLCA := FindLCA(root.right, id1, id2);
      if leftLCA.Node? && rightLCA.Node? then root
      else if leftLCA.Node? then leftLCA else rightLCA
  }

  /** The common ancestor of a node's two children is that node. */
  lemma LcaOfChildrenIsParent(root: Tree)
    requires root.Node? && root.left.Node? && root.right.Node?
    ensures FindLCA(root, root.left.id, root.right.id) == root
  {
  }

  /** A search that names the root itself stops at the root. */
  lemma LcaWithRootIsRoot(root: Tree, id: int)
    requires root.Node?
    ensures FindLCA(root, id, root.id) == root
  {
  }

  /**
   * `calculateManhattanDistance`: the distance between the first stored
   * sinks of the two nodes (not their positions); -1 when a node is missing.
   * Reading the first sink of a node with no sinks is undefined.
   */
  function CalculateManhattanDistance(root: Tree, id1: int, id2: int): (r: Result<int>)
    ensures id1 !in Ids(root) || id2 !in Ids(root) ==> r == Success(-1)
    ensures r.Failure? <==> (id1 in Ids(root) && id2 in Ids(root) &&
      (|FindNodeById(root, id1).sinks| == 0 || |FindNodeById(root, id2).sinks| == 0))
    ensures r.Success? && id1 in Ids(root) && id2 in Ids(root) ==> r.value >= 0
    ensures r.Success? && id1 in Ids(root) && id2 in Ids(root) ==>
      r.value == ManhattanDistance(FindNodeById(root, id1).sinks[0], FindNodeById(root, id2).sinks[0])
  {
    var node1 := FindNodeById(root, id1);
    var node2 := FindNodeById(root, id2);
    if node1.Nil? || node2.Nil? then Success(-1)
    else if |node1.sinks| == 0 || |node2.sinks| == 0 then Failure(FrontOfEmpty)
    else Success(ManhattanDistance(node1.sinks[0], node2.sinks[0]))
  }

  // ---------------------------------------------------------------------
  // assignPhysicalLocations
  // ---------------------------------------------------------------------

  /** The tree after `assignPhysicalLocations`. */
  function Located(t: Tree): (r: Tree)
    ensures r.Node? <==> t.Node?
    ensures r.Node? ==> r.id == t.id && r.sinks == t.sinks
  {
    if t.Nil? then Nil
    else
      var l := Located(t.left);
      var r := Located(t.right);
      if IsLeaf(t) && |t.sinks| > 0 then
        t.(x := t.sinks[0].x, y := t.sinks[0].y, z := t.sinks[0].z, nodeType := "Leaf", left := l, right := r)
      else t.(left := l, right := r)
  }

  /** `assignPhysicalLocations`: places every leaf with sinks at its first sink. */
  method AssignPhysicalLocations(node: Tree) returns (r: Tree)
    ensures r == Located(node)
  {
    if node.Nil? {
      return Nil;
    }
    r := node;
    if node.left.Nil? && node.right.Nil? {
      if |node.sinks| > 0 {
        r := r.(x := node.sinks[0].x, y := node.sinks[0].y, z := node.sinks[0].z, nodeType := "Leaf");
      }
    }
    var l := AssignPhysicalLocations(node.left);
    var rt := AssignPhysicalLocations(node.right);
    r := r.(left := l, right := rt);
  }

  /**
   * How one node changes: a leaf with sinks takes the first sink's (x, y, z)
   * and the type "Leaf"; every other node keeps all its fields.
   */
  predicate LocatedNode(a: Tree, b: Tree)
  {
    a.Node? && b.Node? &&
    if IsLeaf(a) && |a.sinks| > 0 then
      Own(b) == a.(left := Nil, right := Nil, x := a.sinks[0].x, y := a.sinks[0].y, z := a.sinks[0].z, nodeType := "Leaf")
    else Own(b) == Own(a)
  }

  lemma {:induction false} LocatedPointwise(t: Tree)
    ensures Pointwise(t, Located(t), LocatedNode)
  {
    if t.Node? {
      LocatedPointwise(t.left);
      LocatedPointwise(t.right);
    }
  }

  /** After the pass, every leaf with sinks sits at its first sink's position and is typed "Leaf". */
  lemma {:induction false} LocatedLeavesPlaced(t: Tree)
    ensures forall n :: n in Leaves(Located(t)) && |n.sinks| > 0 ==>
      n.x == n.sinks[0].x && n.y == n.sinks[0].y && n.z == n.sinks[0].z && n.nodeType == "Leaf"
  {
    if t.Node? {
      LocatedLeavesPlaced(t.left);
      LocatedLeavesPlaced(t.right);
    }
  }

  lemma {:induction false} LocatedKeepsIds(t: Tree)
    ensures Ids(Located(t)) == Ids(t)
    ensures t.Node? <==> Located(t).Node?
  {
    if t.Node? {
      LocatedKeepsIds(t.left);
      LocatedKeepsIds(t.right);
    }
  }

  /** Searching the located tree finds the located copy of the node the original search finds. */
  lemma {:induction false} FindLocated(t: Tree, id: int)
    ensures FindNodeById(Located(t), id) == Located(FindNodeById(t, id))
  {
    if t.Node? && t.id != id {
      FindLocated(t.left, id);
      FindLocated(t.right, id);
      LocatedKeepsIds(FindNodeById(t.left, id));
    }
  }

  /**
   * Once leaves are located, the distance between two leaves with sinks is
   * the Manhattan distance between the positions the pass wrote into them.
   */
  lemma LocatedLeafDistance(t: Tree, id1: int, id2: int)
    requires IsLeaf(FindNodeById(t, id1)) && |FindNodeById(t, id1).sinks| > 0
    requires IsLeaf(FindNodeById(t, id2)) && |FindNodeById(t, id2).sinks| > 0
    ensures FindNodeById(Located(t), id1) == Located(FindNodeById(t, id1))
    ensures FindNodeById(Located(t), id2) == Located(FindNodeById(t, id2))
    ensures CalculateManhattanDistance(Located(t), id1, id2) ==
      Success(NodeDistance(FindNodeById(Located(t), id1), FindNodeById(Located(t), id2)))
  {
    var n1, n2 := FindNodeById(t, id1), FindNodeById(t, id2);
    FindLocated(t, id1);
    FindLocated(t, id2);
    LocatedKeepsIds(t);
    var m1, m2 := Located(n1), Located(n2);
    assert m1.x == n1.sinks[0].x && m1.y == n1.sinks[0].y;
    assert m2.x == n2.sinks[0].x && m2.y == n2.sinks[0].y;
    var lt := Located(t);
    assert id1 in Ids(lt) && id2 in Ids(lt);
    assert FindNodeById(lt, id1) == m1 && FindNodeById(lt, id2) == m2;
    assert |m1.sinks| > 0 && |m2.sinks| > 0;
    assert CalculateManhattanDistance(lt, id1, id2) == Success(ManhattanDistance(m1.sinks[0], m2.sinks[0]));
    assert ManhattanDistance(m1.sinks[0], m2.sinks[0]) == NodeDistance(m1, m2);
  }

  /** Two nodes that differ at most in their written (x, y, z). */
  predicate PositionOnly(a: Tree, b: Tree)
  {
    a.Node? && b.Node? && Own(b) == a.(left := Nil, right := Nil, x := b.x, y := b.y, z := b.z)
  }

  lemma {:induction false} FindIgnoresPositions(a: Tree, b: Tree, id: int)
    requires Pointwise(a, b, PositionOnly)
    ensures FindNodeById(a, id).Nil? == FindNodeById(b, id).Nil?
    ensures FindNodeById(a, id).Node? ==> FindNodeById(a, id).sinks == FindNodeById(b, id).sinks
  {
    if a.Node? && a.id != id {
      assert Own(b).id == Own(a).id;
      FindIgnoresPositions(a.left, b.left, id);
      FindIgnoresPositions(a.right, b.right, id);
    }
  }

  /**
   * The distance reads the nodes' stored sinks, never their written
   * positions: moving any nodes (a merged internal node included) leaves it
   * unchanged.
   */
  lemma DistanceIgnoresPositions(a: Tree, b: Tree, id1: int, id2: int)
    requires Pointwise(a, b, PositionOnly)
    ensures CalculateManhattanDistance(a, id1, id2) == CalculateManhattanDistance(b, id1, id2)
  {
    FindIgnoresPositions(a, b, id1);
    FindIgnoresPositions(a, b, id2);
  }

  // ---------------------------------------------------------------------
  // Wirelength of an embedded tree
  // ---------------------------------------------------------------------

  /** Manhattan distance between the positions of two nodes. */
  function NodeDistance(a: Tree, b: Tree): nat
    requires a.Node? && b.Node?
  {
    Abs(a.x - b.x) + Abs(a.y - b.y)
  }

  /** `calculateZeroSkewTreeWirelength`: the Manhattan lengths of all parent-child edges. */
  function CalculateZeroSkewTreeWirelength(root: Tree): (w: int)
    ensures w >= 0
    ensures IsLeaf(root) || root.Nil? ==> w == 0
  {
    if root.Nil? then 0
    else
      (if root.left.Node? then NodeDistance(root, root.left) + CalculateZeroSkewTreeWirelength(root.left) else 0) +
      (if root.right.Node? then NodeDistance(root, root.right) + CalculateZeroSkewTreeWirelength(root.right) else 0)
  }

  /** The Manhattan lengths of the (at most two) edges from a node down to its children. */
  function ChildEdges(n: Tree): nat
    requires n.Node?
  {
    (if n.left.Node? then NodeDistance(n, n.left) else 0) +
    (if n.right.Node? then NodeDistance(n, n.right) else 0)
  }

  /** The child edges of every node in a list, added up. */
  function EdgeSum(s: seq<Tree>): nat
    requires forall k :: 0 <= k < |s| ==> s[k].Node?
  {
    if |s| == 0 then 0 else ChildEdges(s[0]) + EdgeSum(s[1..])
  }

  lemma {:induction false} EdgeSumAppend(a: seq<Tree>, b: seq<Tree>)
    requires forall k :: 0 <= k < |a| ==> a[k].Node?
    requires forall k :: 0 <= k < |b| ==> b[k].Node?
    ensures EdgeSum(a + b) == EdgeSum(a) + EdgeSum(b)
  {
    if |a| > 0 {
      assert (a + b)[1..] == a[1..] + b;
      EdgeSumAppend(a[1..], b);
    } else {
      assert a + b == b;
    }
  }

  /** The wirelength is the sum, over every node of the tree, of its edges to its children. */
  lemma {:induction false} WirelengthIsEdgeSum(t: Tree)
    ensures CalculateZeroSkewTreeWirelength(t) == EdgeSum(Nodes(t))
  {
    if t.Node? {
      WirelengthIsEdgeSum(t.left);
      WirelengthIsEdgeSum(t.right);
      EdgeSumAppend([t], Nodes(t.left));
      EdgeSumAppend([t] + Nodes(t.left), Nodes(t.right));
      assert ([t] + Nodes(t.left))[1..] == Nodes(t.left);
    }
  }

  /**
   * The tree's wire covers every edge: it is at least the length of the
   * edges from any node of the tree to its children.
   */
  lemma {:induction false} WirelengthCoversEveryEdge(root: Tree, n: Tree)
    requires n in Nodes(root)
    ensures CalculateZeroSkewTreeWirelength(root) >= ChildEdges(n)
  {
    assert Nodes(root) == [root] + Nodes(root.left) + Nodes(root.right);
    if n != root {
      if n in Nodes(root.left) {
        WirelengthCoversEveryEdge(root.left, n);
      } else {
        WirelengthCoversEveryEdge(root.right, n);
      }
    }
  }

  /** The tree's wire reaches every node: it is at least the root-to-node distance. */
  lemma {:induction false} WirelengthCoversEveryNode(root: Tree, n: Tree)
    requires n in Nodes(root)
    ensures CalculateZeroSkewTreeWirelength(root) >= NodeDistance(root, n)
  {
    assert Nodes(root) == [root] + Nodes(root.left) + Nodes(root.right);
    if n != root {
      if n in Nodes(root.left) {
        WirelengthCoversEveryNode(root.left, n);
        assert NodeDistance(root, n) <= NodeDistance(root, root.left) + NodeDistance(root.left, n);
      } else {
        WirelengthCoversEveryNode(root.right, n);
        assert NodeDistance(root, n) <= NodeDistance(root, root.right) + NodeDistance(root.right, n);
      }
    }
  }
}
