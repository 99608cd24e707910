/**
 * Records shared by every stage of the clock-tree synthesis: sinks, DBSCAN
 * points, tree nodes, and the physical configuration read from the input.
 */
module Structures {

  /**
   * A clock sink on grid cell (x, y) of die z. The later fields carry what a
   * cluster sub-tree contributes when it is fed to the next tier as an MIV sink.
   */
  datatype Sink = Sink(
    x: int, y: int, z: int,
    inputCapacitance: real,
    capacitance: real,
    color: string,
    delay: real,
    clusterId: int,
    sinkType: string)

  /** The defaulted sink constructor: `Sink s(x, y, z, cap)`. */
  function NewSink(x: int, y: int, z: int, inputCapacitance: real): (s: Sink)
    ensures s.x == x && s.y == y && s.z == z && s.inputCapacitance == inputCapacitance
    ensures s.capacitance == 0.0 && s.delay == 0.0
    ensures s.color == "Gray" && s.clusterId == NOISE && s.sinkType == "sink"
  {
    Sink(x, y, z, inputCapacitance, 0.0, "Gray", 0.0, -1, "sink")
  }

  /** `Sink()`: every field at its default. */
  function DefaultSink(): (s: Sink)
    ensures s.x == 0 && s.y == 0 && s.z == 0 && s.inputCapacitance == 0.0
    ensures s.color == "Gray"
  {
    NewSink(0, 0, 0, 0.0)
  }

  /** Point labels used by DBSCAN. Positive labels are cluster ids. */
  const NOISE: int := -1
  const UNVISITED: int := 0

  predicate IsClusterLabel(id: int)
  {
    id > UNVISITED
  }

  /** A planar point with a DBSCAN label; also the type of DME candidates. */
  datatype Point = Point(x: real, y: real, clusterId: int)

  /** A point written as `{x, y}`: the label is value-initialised to 0. */
  function At(x: real, y: real): (p: Point)
    ensures p.x == x && p.y == y && p.clusterId == UNVISITED
  {
    Point(x, y, UNVISITED)
  }

  /**
   * A clock-tree node; `Nil` is the null child pointer. `sinks` is the sink
   * list the node was built from; (x, y, z) = (-1, -1, -1) means "no physical
   * location yet".
   */
  datatype Tree =
    | Nil
    | Node(
        id: int,
        sinks: seq<Sink>,
        left: Tree,
        right: Tree,
        color: string,
        capacitance: real,
        resistance: real,
        elmoreDelay: real,
        isBuffered: bool,
        x: int, y: int, z: int,
        nodeType: string,
        clusterId: int,
        bufferDelay: real)

  /** `new Node(sinks, color, 0.0, 0.0, false, id)` with the remaining defaults. */
  function NewNode(sinks: seq<Sink>, color: string, id: int): (t: Tree)
    ensures t.Node? && t.left == Nil && t.right == Nil
    ensures t.id == id && t.sinks == sinks && t.color == color
    ensures t.x == -1 && t.y == -1 && t.z == -1
    ensures t.capacitance == 0.0 && t.resistance == 0.0 && t.bufferDelay == 0.0
    ensures !t.isBuffered && t.nodeType == "undefined" && t.clusterId == NOISE
  {
    Node(id, sinks, Nil, Nil, color, 0.0, 0.0, 0.0, false, -1, -1, -1, "undefined", -1, 0.0)
  }

  /** A node without children. */
  predicate IsLeaf(t: Tree)
  {
    t.Node? && t.left == Nil && t.right == Nil
  }

  /** `hasPhysicalLocation`: a non-null node not at the (-1, -1, -1) sentinel. */
  predicate HasPhysicalLocation(t: Tree)
  {
    t.Node? && !(t.x == -1 && t.y == -1 && t.z == -1)
  }

  /** A freshly constructed node is an unlocated leaf. */
  lemma NewNodeUnlocated(sinks: seq<Sink>, color: string, id: int)
    ensures IsLeaf(NewNode(sinks, color, id))
    ensures !HasPhysicalLocation(NewNode(sinks, color, id))
  {
  }

  /** Node ids in pre-order (node, left, right). */
  function Ids(t: Tree): (r: seq<int>)
    ensures t.Node? ==> |r| >= 1 && r[0] == t.id
  {
    if t.Nil? then [] else [t.id] + Ids(t.left) + Ids(t.right)
  }

  /** The nodes of a tree (each with its subtree), in pre-order. */
  function Nodes(t: Tree): (r: seq<Tree>)
    ensures |r| == |Ids(t)|
    ensures forall k :: 0 <= k < |r| ==> r[k].Node? && r[k].id == Ids(t)[k]
    ensures t.Node? ==> r[0] == t
  {
    if t.Nil? then [] else [t] + Nodes(t.left) + Nodes(t.right)
  }

  /** The sinks stored in the leaves, in pre-order. */
  function LeafSinks(t: Tree): seq<Sink>
  {
    if t.Nil? then []
    else if IsLeaf(t) then t.sinks
    else LeafSinks(t.left) + LeafSinks(t.right)
  }

  /** Number of nodes. */
  function Size(t: Tree): (n: nat)
    ensures n == |Ids(t)|
  {
    if t.Nil? then 0 else 1 + Size(t.left) + Size(t.right)
  }

  /** Two trees of the same shape whose nodes at equal positions satisfy `rel`. */
  predicate Pointwise(a: Tree, b: Tree, rel: (Tree, Tree) -> bool)
  {
    (a.Nil? && b.Nil?) ||
    (a.Node? && b.Node? && rel(a, b) &&
     Pointwise(a.left, b.left, rel) && Pointwise(a.right, b.right, rel))
  }

  /** The node's own fields, with the children cut off. */
  function Own(t: Tree): (r: Tree)
    requires t.Node?
    ensures r.Node? && r.id == t.id
  {
    t.(left := Nil, right := Nil)
  }

  /** A step from a node to one of its children. */
  datatype Dir = Left | Right

  /** The subtree reached from `t` by following `path`; Nil when it leaves the tree. */
  function Subtree(t: Tree, path: seq<Dir>): Tree
    decreases |path|
  {
    if |path| == 0 then t
    else if t.Nil? then Nil
    else Subtree(if path[0] == Left then t.left else t.right, path[1..])
  }

  /** Physical and electrical parameters, read-only after parsing. */
  datatype Config = Config(
    layoutWidth: real,
    layoutHeight: real,
    wireResistance: real,
    wireCapacitance: real,
    bufferOutputResistance: real,
    bufferInputCapacitance: real,
    bufferIntrinsicDelay: real,
    tsvResistance: real,
    clockX: int, clockY: int, clockZ: int,
    clockOutputResistance: real,
    sqrt: real -> real,
    variant: Variant)

  /**
   * Which copy of the program a divergent operation follows: the header split
   * (tree.hpp, dme.hpp, utilities.hpp, clustering.hpp) or the compiled main.cpp.
   */
  datatype Variant = Headers | Monolith

  /** `sqrt` behaves as the square root on the non-negative reals. */
  ghost predicate IsSqrt(f: real -> real)
  {
    forall v: real {:trigger f(v)} :: v >= 0.0 ==> f(v) >= 0.0 && f(v) * f(v) == v
  }

  /** Failure reasons: exceptions and undefined behaviour in the source. */
  datatype Error =
    | EmptySinkList        // getMin*/getMax* throw runtime_error
    | FrontOfEmpty         // front() of an empty vector
    | DivisionByZero       // a zero denominator in double arithmetic (inf/NaN)
    | NodeNotFound         // a null node pointer dereferenced
    | NotANumber           // sqrt of a negative number, then rounded to an int

  datatype Result<T> = Success(value: T) | Failure(error: Error)
  {
    predicate IsFailure() { Failure? }
    function PropagateFailure<U>(): Result<U>
      requires Failure?
    {
      Failure(error)
    }
    function Extract(): T
      requires Success?
    {
      value
    }
  }

  datatype Option<T> = None | Some(value: T)
}
