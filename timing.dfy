/**
 * RC timing over a clock tree: bottom-up capacitance, top-down Elmore delay,
 * the lookups the merge uses, and the unused bottom-up delay variant.
 */
module Timing {
  import opened Numerics
  import opened Structures

  /** The sum of the input capacitances of a sink list. */
  function SinkCapacitance(sinks: seq<Sink>): real
  {
    if |sinks| == 0 then 0.0 else SinkCapacitance(sinks[..|sinks| - 1]) + sinks[|sinks| - 1].inputCapacitance
  }

  // ---------------------------------------------------------------------
  // depthFirstCapacitance
  // ---------------------------------------------------------------------

  /**
   * The value `depthFirstCapacitance` returns: a buffered node shields its
   * subtree and reports its stored capacitance; otherwise the children's
   * values, plus the node's sinks when it has no children.
   */
  function SubtreeCapacitance(t: Tree): real
  {
    if t.Nil? then 0.0
    else if t.isBuffered then t.capacitance
    else
      SubtreeCapacitance(t.left) + SubtreeCapacitance(t.right) +
      (if IsLeaf(t) then SinkCapacitance(t.sinks) else 0.0)
  }

  /** The tree after `depthFirstCapacitance`: every visited node stores its value. */
  function WithCapacitance(t: Tree): Tree
  {
    if t.Nil? || t.isBuffered then t
    else t.(capacitance := SubtreeCapacitance(t), left := WithCapacitance(t.left), right := WithCapacitance(t.right))
  }

  /** `depthFirstCapacitance`: returns the subtree capacitance and stores it in each visited node. */
  method DepthFirstCapacitance(node: Tree) returns (capacitance: real, updated: Tree)
    ensures capacitance == SubtreeCapacitance(node)
    ensures updated == WithCapacitance(node)
  {
    if node.Nil? {
      return 0.0, Nil;
    }
    var nodeCapacitance := 0.0;
    if node.isBuffered {
      nodeCapacitance := nodeCapacitance + node.capacitance;
      return nodeCapacitance, node;
    }
    var l, r := node.left, node.right;
    if node.left.Node? {
      var c;
      c, l := DepthFirstCapacitance(node.left);
      nodeCapacitance := nodeCapacitance + c;
    }
    if node.right.Node? {
      var c;
      c, r := DepthFirstCapacitance(node.right);
      nodeCapacitance := nodeCapacitance + c;
    }
    if node.left.Nil? && node.right.Nil? {
      var i := 0;
      while i < |node.sinks|
        invariant 0 <= i <= |node.sinks|
        invariant nodeCapacitance == SinkCapacitance(node.sinks[..i])
      {
        assert node.sinks[..i + 1][..i] == node.sinks[..i];
        nodeCapacitance := nodeCapacitance + node.sinks[i].inputCapacitance;
        i := i + 1;
      }
      assert node.sinks[..|node.sinks|] == node.sinks;
    }
    capacitance := nodeCapacitance;
    updated := node.(capacitance := nodeCapacitance, left := l, right := r);
  }

  /** The pass stores at the root exactly the value it returns. */
  lemma CapacitanceStored(t: Tree)
    requires t.Node?
    ensures WithCapacitance(t).capacitance == SubtreeCapacitance(t)
  {
  }

  /** The pass changes no field but `capacitance`, and keeps the shape. */
  predicate CapacitanceOnly(a: Tree, b: Tree)
  {
    a.Node? && b.Node? && Own(b) == a.(left := Nil, right := Nil, capacitance := b.capacitance)
  }

  lemma {:induction false} CapacitancePointwise(t: Tree)
    ensures Pointwise(t, WithCapacitance(t), CapacitanceOnly)
  {
    if t.Node? && !t.isBuffered {
      CapacitancePointwise(t.left);
      CapacitancePointwise(t.right);
    } else if t.Node? {
      SamePointwise(t);
    }
  }

  lemma {:induction false} SamePointwise(t: Tree)
    ensures Pointwise(t, t, CapacitanceOnly)
  {
    if t.Node? {
      SamePointwise(t.left);
      SamePointwise(t.right);
    }
  }

  /** No node of the tree is buffered. */
  predicate Unbuffered(t: Tree)
  {
    t.Nil? || (!t.isBuffered && Unbuffered(t.left) && Unbuffered(t.right))
  }

  lemma {:induction false} SinkCapacitanceAppend(a: seq<Sink>, b: seq<Sink>)
    ensures SinkCapacitance(a + b) == SinkCapacitance(a) + SinkCapacitance(b)
    decreases |b|
  {
    if |b| > 0 {
      var b' := b[..|b| - 1];
      assert (a + b)[..|a + b| - 1] == a + b';
      SinkCapacitanceAppend(a, b');
    } else {
      assert a + b == a;
    }
  }

  /**
   * Without buffers, the capacitance of a tree is the total input
   * capacitance of the sinks stored in its leaves; sinks repeated in
   * internal nodes are not counted again.
   */
  lemma {:induction false} UnbufferedCapacitanceIsLeafSum(t: Tree)
    requires Unbuffered(t)
    ensures SubtreeCapacitance(t) == SinkCapacitance(LeafSinks(t))
  {
    if t.Node? {
      UnbufferedCapacitanceIsLeafSum(t.left);
      UnbufferedCapacitanceIsLeafSum(t.right);
      if !IsLeaf(t) {
        SinkCapacitanceAppend(LeafSinks(t.left), LeafSinks(t.right));
      } else {
        assert SubtreeCapacitance(t.left) == 0.0 && SubtreeCapacitance(t.right) == 0.0;
      }
    }
  }

  // ---------------------------------------------------------------------
  // depthFirstDelay
  // ---------------------------------------------------------------------

  /** The buffer's intrinsic delay where a node is buffered. */
  function BufferTerm(t: Tree, intrinsicDelay: real): real
    requires t.Node?
  {
    if t.isBuffered then intrinsicDelay else 0.0
  }

  /** The tree after `depthFirstDelay(t, accumulated)`. */
  function WithDelay(t: Tree, accumulated: real, intrinsicDelay: real): Tree
  {
    if t.Nil? then Nil
    else
      var total := accumulated + t.resistance;
      t.(elmoreDelay := total * t.capacitance + BufferTerm(t, intrinsicDelay),
         left := WithDelay(t.left, total, intrinsicDelay),
         right := WithDelay(t.right, total, intrinsicDelay))
  }

  /**
   * `depthFirstDelay`: every node's delay is the resistance accumulated from
   * the seed down to it, times its capacitance, plus the buffer delay.
   */
  method DepthFirstDelay(node: Tree, accumulatedResistance: real, cfg: Config) returns (updated: Tree)
    ensures updated == WithDelay(node, accumulatedResistance, cfg.bufferIntrinsicDelay)
  {
    if node.Nil? {
      return Nil;
    }
    var totalResistance := accumulatedResistance + node.resistance;
    var delay := 0.0;
    if node.isBuffered {
      delay := cfg.bufferIntrinsicDelay;
    }
    updated := node;
    if node.left.Nil? && node.right.Nil? {
      updated := updated.(elmoreDelay := totalResistance * node.capacitance + delay);
    } else {
      var subtreeCapacitance := node.capacitance;
      updated := updated.(elmoreDelay := totalResistance * subtreeCapacitance + delay);
    }
    var l, r := node.left, node.right;
    if node.left.Node? {
      l := DepthFirstDelay(node.left, totalResistance, cfg);
    }
    if node.right.Node? {
      r := DepthFirstDelay(node.right, totalResistance, cfg);
    }
    updated := updated.(left := l, right := r);
  }

  /** `hierarchicalDelay`: capacitance first, then delay seeded with the clock source's resistance. */
  method HierarchicalDelay(node: Tree, cfg: Config) returns (updated: Tree)
    ensures updated == WithDelay(WithCapacitance(node), cfg.clockOutputResistance, cfg.bufferIntrinsicDelay)
  {
    var _, withCap := DepthFirstCapacitance(node);
    updated := DepthFirstDelay(withCap, cfg.clockOutputResistance, cfg);
  }

  /** The resistances of the strict ancestors of the node at the end of `path`. */
  function ResistanceAbove(t: Tree, path: seq<Dir>): real
    decreases |path|
  {
    if t.Nil? || |path| == 0 then 0.0
    else t.resistance + ResistanceAbove(if path[0] == Left then t.left else t.right, path[1..])
  }

  /**
   * Below any node, the delay pass behaves as if started at that node with
   * the seed plus the resistances of the node's ancestors.
   */
  lemma {:induction false} DelaySubtree(t: Tree, seed: real, intrinsicDelay: real, path: seq<Dir>)
    ensures Subtree(WithDelay(t, seed, intrinsicDelay), path) ==
      WithDelay(Subtree(t, path), seed + ResistanceAbove(t, path), intrinsicDelay)
    decreases |path|
  {
    if |path| > 0 && t.Node? {
      var child := if path[0] == Left then t.left else t.right;
      DelaySubtree(child, seed + t.resistance, intrinsicDelay, path[1..]);
    }
  }

  /**
   * The Elmore delay of every node: (seed + the resistances on the path from
   * the root down to and including the node) times its capacitance, plus the
   * buffer delay if it is buffered.
   */
  lemma DelayAlongPath(t: Tree, seed: real, intrinsicDelay: real, path: seq<Dir>)
    requires Subtree(t, path).Node?
    ensures Subtree(WithDelay(t, seed, intrinsicDelay), path).Node?
    ensures var n := Subtree(t, path);
      Subtree(WithDelay(t, seed, intrinsicDelay), path).elmoreDelay ==
        (seed + ResistanceAbove(t, path) + n.resistance) * n.capacitance + BufferTerm(n, intrinsicDelay)
  {
    DelaySubtree(t, seed, intrinsicDelay, path);
  }

  /** The delay pass changes no field but `elmoreDelay`, and keeps the shape. */
  predicate DelayOnly(a: Tree, b: Tree)
  {
    a.Node? && b.Node? && Own(b) == a.(left := Nil, right := Nil, elmoreDelay := b.elmoreDelay)
  }

  lemma {:induction false} DelayPointwise(t: Tree, seed: real, intrinsicDelay: real)
    ensures Pointwise(t, WithDelay(t, seed, intrinsicDelay), DelayOnly)
  {
    if t.Node? {
      DelayPointwise(t.left, seed + t.resistance, intrinsicDelay);
      DelayPointwise(t.right, seed + t.resistance, intrinsicDelay);
    }
  }

  // ---------------------------------------------------------------------
  // getNodeCapacitance / getNodeDelay
  // ---------------------------------------------------------------------

  datatype Quantity = Capacitance | Delay

  function ValueOf(t: Tree, q: Quantity): real
    requires t.Node?
  {
    match q
    case Capacitance => t.capacitance
    case Delay => t.elmoreDelay
  }

  /**
   * `getNodeCapacitance` / `getNodeDelay`: -1 for a missing id. A value found
   * in the left subtree is only accepted when it is non-negative; otherwise
   * the search continues on the right.
   */
  function GetNodeValue(node: Tree, id: int, q: Quantity): real
  {
    if node.Nil? then -1.0
    else if node.id == id then ValueOf(node, q)
    else
      var leftSearch := GetNodeValue(node.left, id, q);
      if leftSearch >= 0.0 then leftSearch else GetNodeValue(node.right, id, q)
  }

  /** Every node's value is non-negative. */
  predicate NonNegative(t: Tree, q: Quantity)
  {
    t.Nil? || (ValueOf(t, q) >= 0.0 && NonNegative(t.left, q) && NonNegative(t.right, q))
  }

  /** A missing id reads as -1. */
  lemma {:induction false} GetNodeValueMissing(t: Tree, id: int, q: Quantity)
    requires id !in Ids(t)
    ensures GetNodeValue(t, id, q) == -1.0
  {
    if t.Node? {
      GetNodeValueMissing(t.left, id, q);
      GetNodeValueMissing(t.right, id, q);
    }
  }

  /** With non-negative values the lookup reads the first node carrying the id. */
  lemma {:induction false} GetNodeValueFound(t: Tree, id: int, q: Quantity)
    requires NonNegative(t, q) && id in Ids(t)
    ensures GetNodeValue(t, id, q) == ValueOf(FindFirst(t, id), q)
  {
    if t.id != id {
      if id in Ids(t.left) {
        GetNodeValueFound(t.left, id, q);
        FoundValueNonNegative(t.left, id, q);
      } else {
        GetNodeValueMissing(t.left, id, q);
        GetNodeValueFound(t.right, id, q);
      }
    }
  }

  lemma {:induction false} FoundValueNonNegative(t: Tree, id: int, q: Quantity)
    requires NonNegative(t, q) && id in Ids(t)
    ensures ValueOf(FindFirst(t, id), q) >= 0.0
  {
    if t.id != id {
      if id in Ids(t.left) {
        FoundValueNonNegative(t.left, id, q);
      } else {
        FoundValueNonNegative(t.right, id, q);
      }
    }
  }

  /** The first node in pre-order carrying `id`. */
  function FindFirst(t: Tree, id: int): (r: Tree)
    requires id in Ids(t)
    ensures r.Node? && r.id == id
  {
    if t.id == id then t
    else if id in Ids(t.left) then FindFirst(t.left, id)
    else FindFirst(t.right, id)
  }

  // ---------------------------------------------------------------------
  // calculateBottomUpDelay (main.cpp, not called by the flow)
  // ---------------------------------------------------------------------

  /**
   * The tree after `calculateBottomUpDelay`: children first; a leaf gets
   * (clock R + node R) x C; an internal node gets the largest child delay
   * (at least 0) plus R x (its own C + the children's C); buffered nodes add
   * the intrinsic delay.
   */
  function BottomUpDelay(t: Tree, cfg: Config): Tree
  {
    if t.Nil? then Nil
    else
      var l := BottomUpDelay(t.left, cfg);
      var r := BottomUpDelay(t.right, cfg);
      t.(elmoreDelay := OwnDelay(t, l, r, cfg) + BufferTerm(t, cfg.bufferIntrinsicDelay), left := l, right := r)
  }

  /**
   * A node's delay before any buffer, given its updated children: a leaf
   * drives its load through the clock output and its own wire; an internal
   * node adds its RC to the worst child.
   */
  function OwnDelay(t: Tree, l: Tree, r: Tree, cfg: Config): real
    requires t.Node?
  {
    if IsLeaf(t) then (cfg.clockOutputResistance + t.resistance) * t.capacitance
    else MaxChildDelay(l, r) + t.resistance * DownstreamCap(t, l, r)
  }

  /** The larger of the (updated) children's delays, and at least 0. */
  function MaxChildDelay(l: Tree, r: Tree): real
  {
    MaxR(MaxR(0.0, if l.Node? then l.elmoreDelay else 0.0), if r.Node? then r.elmoreDelay else 0.0)
  }

  /** A node's own capacitance plus its children's. */
  function DownstreamCap(t: Tree, l: Tree, r: Tree): real
    requires t.Node?
  {
    t.capacitance + (if l.Node? then l.capacitance else 0.0) + (if r.Node? then r.capacitance else 0.0)
  }

  /** `calculateBottomUpDelay`. */
  method CalculateBottomUpDelay(node: Tree, cfg: Config) returns (updated: Tree)
    ensures updated == BottomUpDelay(node, cfg)
  {
    if node.Nil? {
      return Nil;
    }
    var l := CalculateBottomUpDelay(node.left, cfg);
    var r := CalculateBottomUpDelay(node.right, cfg);
    var delay: real;
    if node.left.Nil? && node.right.Nil? {
      var totalResistance := cfg.clockOutputResistance + node.resistance;
      delay := totalResistance * node.capacitance;
      assert delay == OwnDelay(node, l, r, cfg);
    } else {
      delay := InternalDelay(node, l, r);
      assert delay == OwnDelay(node, l, r, cfg);
    }
    if node.isBuffered {
      delay := delay + cfg.bufferIntrinsicDelay;
    }
    updated := node.(elmoreDelay := delay, left := l, right := r);
  }

  /** The delay of an internal node before any buffer: the worst child plus its own RC. */
  method InternalDelay(node: Tree, l: Tree, r: Tree) returns (delay: real)
    requires node.Node?
    ensures delay == MaxChildDelay(l, r) + node.resistance * DownstreamCap(node, l, r)
  {
    var maxChildDelay := 0.0;
    var downstreamCap := node.capacitance;
    if l.Node? {
      maxChildDelay := MaxR(maxChildDelay, l.elmoreDelay);
      downstreamCap := downstreamCap + l.capacitance;
    }
    if r.Node? {
      maxChildDelay := MaxR(maxChildDelay, r.elmoreDelay);
      downstreamCap := downstreamCap + r.capacitance;
    }
    var nodeDelay := node.resistance * downstreamCap;
    delay := maxChildDelay + nodeDelay;
  }

  /** Resistances and capacitances are non-negative everywhere. */
  predicate PhysicalRC(t: Tree)
  {
    t.Nil? || (t.resistance >= 0.0 && t.capacitance >= 0.0 && PhysicalRC(t.left) && PhysicalRC(t.right))
  }

  /** The pass keeps every field except `elmoreDelay`. */
  lemma {:induction false} BottomUpDelayPointwise(t: Tree, cfg: Config)
    ensures Pointwise(t, BottomUpDelay(t, cfg), DelayOnly)
  {
    if t.Node? {
      BottomUpDelayPointwise(t.left, cfg);
      BottomUpDelayPointwise(t.right, cfg);
    }
  }

  /**
   * With non-negative R, C and buffer delay, an internal node's delay is at
   * least each child's delay.
   */
  lemma BottomUpDelayDominatesChildren(t: Tree, cfg: Config)
    requires t.Node? && !IsLeaf(t) && PhysicalRC(t) && cfg.bufferIntrinsicDelay >= 0.0
    ensures var u := BottomUpDelay(t, cfg);
      (u.left.Node? ==> u.elmoreDelay >= u.left.elmoreDelay) &&
      (u.right.Node? ==> u.elmoreDelay >= u.right.elmoreDelay)
  {
    var l := BottomUpDelay(t.left, cfg);
    var r := BottomUpDelay(t.right, cfg);
    BottomUpDelayPointwise(t.left, cfg);
    BottomUpDelayPointwise(t.right, cfg);
    assert DownstreamCap(t, l, r) >= 0.0;
    assert t.resistance * DownstreamCap(t, l, r) >= 0.0;
  }
}
