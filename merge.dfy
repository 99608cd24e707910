/**
 * Zero-skew merging: the tapping point that balances the Elmore delays of
 * two sibling subtrees, the wire extension and buffer when it falls outside
 * the wire, the embedding of the merging point on the grid, and the
 * post-order pass that merges every pair of located siblings.
 */
module Merge {
  import opened Numerics
  import opened Structures
  import opened Utilities
  import opened TreeQueries
  import opened Timing
  import opened Dme

  // ---------------------------------------------------------------------
  // What a merge reads from the tree
  // ---------------------------------------------------------------------

  /**
   * The quantities `ZeroSkewMerge` reads: the two segment delays and
   * capacitances, the wire length L between the children's first stored
   * sinks, the children's positions and child 1's tier.
   */
  datatype Inputs = Inputs(
    d1: real, d2: real,
    c1: real, c2: real,
    length: int,
    x1: real, y1: real,
    x2: real, y2: real,
    z1: int)

  /**
   * The inputs of a merge of `root`'s two children, looked up by id in
   * `root` as the source does. The header copy takes the children's own
   * delays; main.cpp takes the parent's delay minus each child's.
   */
  function ReadInputs(root: Tree, cfg: Config): (r: Result<Inputs>)
    requires root.Node? && root.left.Node? && root.right.Node?
    ensures r.Success? ==> r.value.length >= 0
    ensures r.Failure? <==>
      |FindNodeById(root, root.left.id).sinks| == 0 || |FindNodeById(root, root.right.id).sinks| == 0
  {
    var id1 := root.left.id;
    var id2 := root.right.id;
    assert id1 in Ids(root) && id2 in Ids(root) by {
      assert Ids(root) == [root.id] + Ids(root.left) + Ids(root.right);
    }
    var parent := FindLCA(root, id1, id2);
    var node1 := FindNodeById(root, id1);
    var node2 := FindNodeById(root, id2);
    var d1 := match cfg.variant
      case Headers => GetNodeValue(root, id1, Delay)
      case Monolith => GetNodeValue(root, parent.id, Delay) - GetNodeValue(root, id1, Delay);
    var d2 := match cfg.variant
      case Headers => GetNodeValue(root, id2, Delay)
      case Monolith => GetNodeValue(root, parent.id, Delay) - GetNodeValue(root, id2, Delay);
    var length :- CalculateManhattanDistance(root, id1, id2);
    Success(Inputs(d1, d2, GetNodeValue(root, id1, Capacitance), GetNodeValue(root, id2, Capacitance),
      length, node1.x as real, node1.y as real, node2.x as real, node2.y as real, node1.z))
  }

  /**
   * The two children's ids name nothing else in the subtree: neither is the
   * parent's id and neither occurs in the sibling's subtree.
   */
  predicate ChildIdsApart(root: Tree)
    requires root.Node? && root.left.Node? && root.right.Node?
  {
    root.id != root.left.id && root.id != root.right.id &&
    root.left.id !in Ids(root.right) && root.right.id !in Ids(root.left)
  }

  /**
   * A left child's value as the lookup by id returns it: the left search
   * rejects a negative value and, the id being absent on the right, reads -1.
   */
  function LeftLookup(v: real): (r: real)
    ensures v >= 0.0 ==> r == v
    ensures v < 0.0 ==> r == -1.0
  {
    if v >= 0.0 then v else -1.0
  }

  /** What the lookups by id return when the children's ids are apart. */
  lemma LookupsOfChildren(root: Tree, q: Quantity)
    requires root.Node? && root.left.Node? && root.right.Node? && ChildIdsApart(root)
    ensures GetNodeValue(root, root.left.id, q) == LeftLookup(ValueOf(root.left, q))
    ensures GetNodeValue(root, root.right.id, q) == ValueOf(root.right, q)
    ensures GetNodeValue(root, root.id, q) == ValueOf(root, q)
    ensures FindNodeById(root, root.left.id) == root.left
    ensures FindNodeById(root, root.right.id) == root.right
  {
    GetNodeValueMissing(root.right, root.left.id, q);
    GetNodeValueMissing(root.left, root.right.id, q);
    assert FindNodeById(root.left, root.right.id).Nil?;
  }

  /**
   * The fields a merge reads: the header copy takes the children's delays,
   * main.cpp the parent's delay minus each child's; the capacitances are the
   * children's, the length is the distance between their first sinks and the
   * positions are the children's written positions. The lookup fails exactly
   * when a child holds no sink.
   */
  lemma ReadInputsFields(root: Tree, cfg: Config)
    requires root.Node? && root.left.Node? && root.right.Node? && ChildIdsApart(root)
    ensures ReadInputs(root, cfg).Success? <==> |root.left.sinks| > 0 && |root.right.sinks| > 0
    ensures ReadInputs(root, cfg).Success? ==>
      var i := ReadInputs(root, cfg).value;
      (cfg.variant == Headers ==>
        i.d1 == LeftLookup(root.left.elmoreDelay) && i.d2 == root.right.elmoreDelay) &&
      (cfg.variant == Monolith ==>
        i.d1 == root.elmoreDelay - LeftLookup(root.left.elmoreDelay) &&
        i.d2 == root.elmoreDelay - root.right.elmoreDelay) &&
      i.c1 == LeftLookup(root.left.capacitance) && i.c2 == root.right.capacitance &&
      i.length == ManhattanDistance(root.left.sinks[0], root.right.sinks[0]) &&
      i.x1 == root.left.x as real && i.y1 == root.left.y as real &&
      i.x2 == root.right.x as real && i.y2 == root.right.y as real && i.z1 == root.left.z
  {
    LookupsOfChildren(root, Delay);
    LookupsOfChildren(root, Capacitance);
    LcaOfChildrenIsParent(root);
    assert Ids(root) == [root.id] + Ids(root.left) + Ids(root.right);
  }

  // ---------------------------------------------------------------------
  // The tapping point
  // ---------------------------------------------------------------------

  /** (d2 - d1) + r L (c2 + c L / 2). */
  function Numerator(i: Inputs, cfg: Config): real
  {
    var L := i.length as real;
    (i.d2 - i.d1) + cfg.wireResistance * L * (i.c2 + cfg.wireCapacitance * L / 2.0)
  }

  /** r L (c L + c1 + c2). */
  function Denominator(i: Inputs, cfg: Config): real
  {
    var L := i.length as real;
    cfg.wireResistance * L * (cfg.wireCapacitance * L + i.c1 + i.c2)
  }

  /**
   * The tapping fraction x, measured from child 1. A zero denominator
   * (L = 0, or no wire resistance) divides by zero in the source.
   */
  function TappingPoint(i: Inputs, cfg: Config): (r: Result<real>)
    ensures r.Failure? <==> Denominator(i, cfg) == 0.0
    ensures r.Success? ==> r.value * Denominator(i, cfg) == Numerator(i, cfg)
  {
    if Denominator(i, cfg) == 0.0 then Failure(DivisionByZero)
    else Success(Numerator(i, cfg) / Denominator(i, cfg))
  }

  /** Elmore delay at the end of a wire of length `l` driving `load`, above the subtree delay `d`. */
  function WireDelay(cfg: Config, d: real, l: real, load: real): real
  {
    d + cfg.wireResistance * l * (cfg.wireCapacitance * l / 2.0 + load)
  }

  /**
   * The tapping point balances the two sides: a wire of x L from child 1
   * and one of (1 - x) L from child 2 reach it with equal delay.
   */
  lemma ZeroSkewBalance(i: Inputs, cfg: Config)
    requires TappingPoint(i, cfg).Success?
    ensures var x := TappingPoint(i, cfg).value;
      WireDelay(cfg, i.d1, x * i.length as real, i.c1) ==
      WireDelay(cfg, i.d2, (1.0 - x) * i.length as real, i.c2)
  {
    var x := TappingPoint(i, cfg).value;
    var L := i.length as real;
    var r := cfg.wireResistance;
    var c := cfg.wireCapacitance;
    var a := x * L;
    assert (1.0 - x) * L == L - a;
    WireDelayDifference(r, c, L, a, i.d1, i.d2, i.c1, i.c2);
    assert a * (r * (c * L + i.c1 + i.c2)) == x * Denominator(i, cfg);
  }

  /** The delay difference of wires a and L - a, expanded. */
  lemma WireDelayDifference(r: real, c: real, L: real, a: real, d1: real, d2: real, c1: real, c2: real)
    ensures (d1 + r * a * (c * a / 2.0 + c1)) - (d2 + r * (L - a) * (c * (L - a) / 2.0 + c2)) ==
      (d1 - d2) + a * (r * (c * L + c1 + c2)) - r * L * (c * L / 2.0 + c2)
  {
  }

  /** Where the tapping fraction falls. */
  datatype Branch =
    | InRange        // 0 <= x <= 1: tap on the wire between the children
    | BeyondSecond   // x > 1: tap at child 2, wire from child 1 extended
    | BeyondFirst    // x < 0: tap at child 1, wire from child 2 extended

  function BranchOf(x: real): Branch
  {
    if 0.0 <= x <= 1.0 then InRange else if x > 1.0 then BeyondSecond else BeyondFirst
  }

  /**
   * The grid distances from child 1 and child 2 to an in-range tapping
   * point. The header copy gives ceil(x L) to child 2 when child 2 has the
   * larger delay and to child 1 otherwise, the other child getting
   * floor((1 - x) L); main.cpp always gives ceil(x L) to child 1.
   */
  function TapDistances(i: Inputs, x: real, cfg: Config): (int, int)
  {
    var L := i.length as real;
    if cfg.variant == Headers && i.d2 > i.d1 then (Floor((1.0 - x) * L), Ceil(x * L))
    else (Ceil(x * L), Floor((1.0 - x) * L))
  }

  /** The two distances add up to exactly L, and both are non-negative in range. */
  lemma TapDistancesSplitLength(i: Inputs, x: real, cfg: Config)
    requires 0.0 <= x <= 1.0 && i.length >= 0
    ensures TapDistances(i, x, cfg).0 + TapDistances(i, x, cfg).1 == i.length
    ensures TapDistances(i, x, cfg).0 >= 0 && TapDistances(i, x, cfg).1 >= 0
  {
    var L := i.length as real;
    assert (1.0 - x) * L == L - x * L;
    CeilFloorComplement(x * L, i.length);
    MulNonNegative(x, L);
    MulNonNegative(1.0 - x, L);
  }

  /**
   * main.cpp's distances (and the header's when child 1 has the larger or
   * equal delay) are x L and (1 - x) L rounded to the grid; the header's
   * swap when child 2 has the larger delay puts ceil(x L) on child 2.
   */
  lemma TapDistancesNearTap(i: Inputs, x: real, cfg: Config)
    ensures var (s1, s2) := TapDistances(i, x, cfg);
      cfg.variant == Monolith || i.d2 <= i.d1 ==>
        x * i.length as real <= s1 as real < x * i.length as real + 1.0 &&
        s2 as real <= (1.0 - x) * i.length as real < s2 as real + 1.0
    ensures var (s1, s2) := TapDistances(i, x, cfg);
      cfg.variant == Headers && i.d2 > i.d1 ==>
        x * i.length as real <= s2 as real < x * i.length as real + 1.0 &&
        s1 as real <= (1.0 - x) * i.length as real < s1 as real + 1.0
  {
  }

  // ---------------------------------------------------------------------
  // Out of range: extension and buffer
  // ---------------------------------------------------------------------

  /**
   * l' = (sqrt((r cNear)^2 + 2 r c delta) - r cNear) / (r c), the length of
   * wire from the near child that adds `delta` to its delay. A negative
   * radicand gives NaN and a zero r c divides by zero.
   */
  function LPrime(cfg: Config, cNear: real, delta: real): (r: Result<real>)
  {
    var rc := cfg.wireResistance * cfg.wireCapacitance;
    if Radicand(cfg, cNear, delta) < 0.0 then Failure(NotANumber)
    else if rc == 0.0 then Failure(DivisionByZero)
    else Success((cfg.sqrt(Radicand(cfg, cNear, delta)) - cfg.wireResistance * cNear) / rc)
  }

  /** (r cNear)^2 + 2 r c delta. */
  function Radicand(cfg: Config, cNear: real, delta: real): real
  {
    (cfg.wireResistance * cNear) * (cfg.wireResistance * cNear) +
      2.0 * (cfg.wireResistance * cfg.wireCapacitance) * delta
  }

  /** A wire of length l' from the near child adds exactly `delta` to its delay. */
  lemma LPrimeBalances(cfg: Config, cNear: real, delta: real, dNear: real)
    requires IsSqrt(cfg.sqrt) && LPrime(cfg, cNear, delta).Success?
    ensures WireDelay(cfg, dNear, LPrime(cfg, cNear, delta).value, cNear) == dNear + delta
  {
    var r := cfg.wireResistance;
    var c := cfg.wireCapacitance;
    var rc := r * c;
    var k := r * cNear;
    var radicand := Radicand(cfg, cNear, delta);
    assert radicand >= 0.0 && rc != 0.0;
    var s := cfg.sqrt(radicand);
    assert s * s == radicand;
    var l := LPrime(cfg, cNear, delta).value;
    QuadraticRoot(rc, k, s, delta, l);
    WireDelayExpanded(r, c, cNear, l);
  }

  /** l = (s - k) / rc with s^2 = k^2 + 2 rc delta solves rc l^2 / 2 + k l = delta. */
  lemma QuadraticRoot(rc: real, k: real, s: real, delta: real, l: real)
    requires rc != 0.0 && s * s == k * k + 2.0 * rc * delta && l == (s - k) / rc
    ensures (rc * l) * l / 2.0 + k * l == delta
  {
    assert rc * l == s - k;
    calc {
      (rc * l) * l / 2.0 + k * l;
      l * (s + k) / 2.0;
      (rc * l) * (s + k) / (2.0 * rc);
      (s - k) * (s + k) / (2.0 * rc);
      (s * s - k * k) / (2.0 * rc);
    }
  }

  /** r l (c l / 2 + load) = (r c l) l / 2 + (r load) l. */
  lemma WireDelayExpanded(r: real, c: real, load: real, l: real)
    ensures r * l * (c * l / 2.0 + load) == ((r * c) * l) * l / 2.0 + (r * load) * l
  {
  }

  /** The extended wire: l', the integer extension and whether a buffer went in instead. */
  datatype Extension = Extension(lPrime: real, extension: int, buffered: bool)

  /**
   * Out of range: l' from child 1 when x > 1 (using c1 and d2 - d1), from
   * child 2 when x < 0 (using c2 and d1 - d2), rounded to the extension.
   * When L + extension exceeds 1.5 L a buffer goes in instead: the
   * extension becomes 0 and l' becomes L.
   */
  function Extend(i: Inputs, cfg: Config, branch: Branch): (r: Result<Extension>)
    requires branch != InRange
    ensures r.Success? && r.value.buffered ==> r.value.lPrime == i.length as real && r.value.extension == 0
    ensures r.Success? && !r.value.buffered ==>
      r.value.extension == Round(r.value.lPrime) &&
      i.length as real + r.value.extension as real <= i.length as real * 1.5
  {
    var cNear := if branch == BeyondSecond then i.c1 else i.c2;
    var delta := if branch == BeyondSecond then i.d2 - i.d1 else i.d1 - i.d2;
    var lPrime :- LPrime(cfg, cNear, delta);
    var extension := Round(lPrime);
    if i.length as real + extension as real > i.length as real * 1.5 then
      Success(Extension(i.length as real, 0, true))
    else
      Success(Extension(lPrime, extension, false))
  }

  /**
   * Unless a buffer went in, the extension balances the delays: x > 1 extends
   * child 1's wire until it reaches child 2's delay, x < 0 the other way round.
   */
  lemma ExtendBalances(i: Inputs, cfg: Config, branch: Branch)
    requires branch != InRange && IsSqrt(cfg.sqrt)
    requires Extend(i, cfg, branch).Success? && !Extend(i, cfg, branch).value.buffered
    ensures var l := Extend(i, cfg, branch).value.lPrime;
      branch == BeyondSecond ==> WireDelay(cfg, i.d1, l, i.c1) == i.d2
    ensures var l := Extend(i, cfg, branch).value.lPrime;
      branch == BeyondFirst ==> WireDelay(cfg, i.d2, l, i.c2) == i.d1
  {
    if branch == BeyondSecond {
      LPrimeBalances(cfg, i.c1, i.d2 - i.d1, i.d1);
    } else {
      LPrimeBalances(cfg, i.c2, i.d1 - i.d2, i.d2);
    }
  }

  /** Of two non-negative reals, the one with the larger square is the larger. */
  lemma SquareRootOrder(s: real, k: real)
    requires s >= 0.0 && k >= 0.0 && s * s >= k * k
    ensures s >= k
  {
    if s < k {
      calc {
        s * s;
      <=
        s * k;
      <
        k * k;
      }
    }
  }

  /** r l (c l / 2 + load) grows with l on the non-negative reals. */
  lemma WireDelayMonotone(cfg: Config, l: real, m: real, load: real)
    requires cfg.wireResistance > 0.0 && cfg.wireCapacitance > 0.0 && load >= 0.0
    requires 0.0 <= l <= m
    ensures WireDelay(cfg, 0.0, l, load) <= WireDelay(cfg, 0.0, m, load)
  {
    var r := cfg.wireResistance;
    var c := cfg.wireCapacitance;
    assert l * l <= m * m by {
      assert l * l <= l * m;
      assert l * m <= m * m;
    }
    assert c * l / 2.0 + load <= c * m / 2.0 + load;
    assert r * l * (c * l / 2.0 + load) == r * (c * l * l / 2.0 + load * l);
    assert r * m * (c * m / 2.0 + load) == r * (c * m * m / 2.0 + load * m);
    assert c * l * l / 2.0 + load * l <= c * m * m / 2.0 + load * m;
  }

  /**
   * With positive wire resistance and capacitance and non-negative loads, a
   * tapping point outside the wire always takes the buffer branch: l' then
   * exceeds L, so L + round(l') >= 2 L > 1.5 L. The extension is never laid.
   */
  lemma OutOfRangeAlwaysBuffers(i: Inputs, cfg: Config)
    requires IsSqrt(cfg.sqrt)
    requires cfg.wireResistance > 0.0 && cfg.wireCapacitance > 0.0 && i.c1 >= 0.0 && i.c2 >= 0.0
    requires i.length >= 0 && TappingPoint(i, cfg).Success?
    requires BranchOf(TappingPoint(i, cfg).value) != InRange
    ensures Extend(i, cfg, BranchOf(TappingPoint(i, cfg).value)).Success?
    ensures Extend(i, cfg, BranchOf(TappingPoint(i, cfg).value)).value.buffered
  {
    var branch := BranchOf(TappingPoint(i, cfg).value);
    var cNear := if branch == BeyondSecond then i.c1 else i.c2;
    var delta := if branch == BeyondSecond then i.d2 - i.d1 else i.d1 - i.d2;
    OutsideNeedsMoreThanWire(i, cfg);
    LPrimeBeyondWire(cfg, cNear, delta, i.length as real);
  }

  /**
   * Outside the wire, the delay to make up exceeds what the whole wire L
   * from the near child would add; L is then positive.
   */
  lemma OutsideNeedsMoreThanWire(i: Inputs, cfg: Config)
    requires cfg.wireResistance > 0.0 && cfg.wireCapacitance > 0.0 && i.c1 >= 0.0 && i.c2 >= 0.0
    requires i.length >= 0 && TappingPoint(i, cfg).Success?
    requires BranchOf(TappingPoint(i, cfg).value) != InRange
    ensures i.length > 0
    ensures BranchOf(TappingPoint(i, cfg).value) == BeyondSecond ==>
      i.d2 - i.d1 > WireDelay(cfg, 0.0, i.length as real, i.c1)
    ensures BranchOf(TappingPoint(i, cfg).value) == BeyondFirst ==>
      i.d1 - i.d2 > WireDelay(cfg, 0.0, i.length as real, i.c2)
  {
    var x := TappingPoint(i, cfg).value;
    var L := i.length as real;
    var r := cfg.wireResistance;
    var c := cfg.wireCapacitance;
    var den := Denominator(i, cfg);
    var num := Numerator(i, cfg);
    assert L > 0.0;
    assert den > 0.0 by {
      MulPositive(r, L);
      MulPositive(r * L, c * L + i.c1 + i.c2);
    }
    assert x * den == num;
    if x > 1.0 {
      calc {
        num - den;
        x * den - den;
        (x - 1.0) * den;
      }
      MulPositive(x - 1.0, den);
      assert num - den == (i.d2 - i.d1) - WireDelay(cfg, 0.0, L, i.c1);
    } else {
      assert x < 0.0;
      MulPositive(-x, den);
      assert num == (i.d2 - i.d1) + WireDelay(cfg, 0.0, L, i.c2);
    }
  }

  /** When the delay to make up exceeds what a wire of length L adds, l' exceeds L. */
  lemma LPrimeBeyondWire(cfg: Config, cNear: real, delta: real, L: real)
    requires IsSqrt(cfg.sqrt)
    requires cfg.wireResistance > 0.0 && cfg.wireCapacitance > 0.0 && cNear >= 0.0 && L >= 0.0
    requires delta > WireDelay(cfg, 0.0, L, cNear)
    ensures LPrime(cfg, cNear, delta).Success? && LPrime(cfg, cNear, delta).value > L
  {
    var r := cfg.wireResistance;
    var c := cfg.wireCapacitance;
    WireDelayMonotone(cfg, 0.0, L, cNear);
    var k := r * cNear;
    var rc := r * c;
    assert k >= 0.0 && rc > 0.0 && delta > 0.0;
    var radicand := Radicand(cfg, cNear, delta);
    assert radicand >= k * k;
    var s := cfg.sqrt(radicand);
    assert s >= 0.0 && s * s == radicand;
    SquareRootOrder(s, k);
    var l := LPrime(cfg, cNear, delta).value;
    assert l == (s - k) / rc;
    LPrimeBalances(cfg, cNear, delta, 0.0);
    if l <= L {
      WireDelayMonotone(cfg, l, L, cNear);
    }
  }

  // ---------------------------------------------------------------------
  // Candidate merging points
  // ---------------------------------------------------------------------

  /** The extra limit an out-of-range candidate must meet. */
  datatype Bound =
    | Unbounded
    | Layout(width: real, height: real, strict: bool)

  /** Out of range, candidates stay inside the layout: up to and including its edges in the header copy, strictly inside in main.cpp. */
  function LayoutBound(cfg: Config): Bound
  {
    Layout(cfg.layoutWidth, cfg.layoutHeight, cfg.variant == Monolith)
  }

  /** A candidate in the child's column with non-negative coordinates, within the bound. */
  predicate Admits(p: Point, column: real, bound: Bound)
  {
    p.x == column && p.x >= 0.0 && p.y >= 0.0 &&
    match bound
    case Unbounded => true
    case Layout(w, h, strict) => if strict then p.x < w && p.y < h else p.x <= w && p.y <= h
  }

  /** The admitted candidates, in input order. */
  function Column(points: seq<Point>, column: real, bound: Bound): (r: seq<Point>)
    ensures |r| <= |points|
  {
    if |points| == 0 then []
    else
      var rest := Column(points[..|points| - 1], column, bound);
      var p := points[|points| - 1];
      if Admits(p, column, bound) then rest + [p] else rest
  }

  /** `Column` keeps exactly the admitted points. */
  lemma {:induction false} ColumnMembers(points: seq<Point>, column: real, bound: Bound)
    ensures forall p :: p in Column(points, column, bound) <==> p in points && Admits(p, column, bound)
  {
    if |points| > 0 {
      var init := points[..|points| - 1];
      ColumnMembers(init, column, bound);
      assert points == init + [points[|points| - 1]];
    }
  }

  /** The push_back loop that collects admitted candidates. */
  method SelectColumn(points: seq<Point>, column: real, bound: Bound) returns (kept: seq<Point>)
    ensures kept == Column(points, column, bound)
  {
    kept := [];
    for k := 0 to |points|
      invariant kept == Column(points[..k], column, bound)
    {
      assert points[..k + 1][..k] == points[..k];
      if Admits(points[k], column, bound) {
        kept := kept + [points[k]];
      }
    }
    assert points[..|points|] == points;
  }

  /** The minimum spacing of child 1's in-range candidates. */
  const MIN_SPACING: real := 1.5

  /**
   * The candidate points handed to the embedding. In range: child 1's
   * candidates at its distance, thinned by `filterPoints`, then child 2's.
   * Out of range: the candidates at L + extension around child 2 (x > 1)
   * or child 1 (x < 0), inside the layout.
   */
  function Candidates(i: Inputs, cfg: Config, x: real, branch: Branch, e: Extension): seq<Point>
  {
    match branch
    case InRange =>
      var (s1, s2) := TapDistances(i, x, cfg);
      Filtered(Column(FindPoints(i.x1, i.y1, s1 as real), i.x1, Unbounded), MIN_SPACING) +
      Column(FindPoints(i.x2, i.y2, s2 as real), i.x2, Unbounded)
    case BeyondSecond =>
      Column(FindPoints(i.x2, i.y2, (e.extension + i.length) as real), i.x2, LayoutBound(cfg))
    case BeyondFirst =>
      Column(FindPoints(i.x1, i.y1, (e.extension + i.length) as real), i.x1, LayoutBound(cfg))
  }

  /**
   * In range, a child at non-negative coordinates always yields the
   * candidate straight above it, so the candidate list is not empty.
   */
  lemma InRangeCandidates(i: Inputs, cfg: Config, x: real)
    requires 0.0 <= x <= 1.0 && i.length >= 0
    requires i.x1 >= 0.0 && i.y1 >= 0.0
    ensures |Candidates(i, cfg, x, InRange, Extension(0.0, 0, false))| > 0
  {
    var (s1, s2) := TapDistances(i, x, cfg);
    TapDistancesSplitLength(i, x, cfg);
    var points := FindPoints(i.x1, i.y1, s1 as real);
    var column := Column(points, i.x1, Unbounded);
    ColumnMembers(points, i.x1, Unbounded);
    assert Admits(points[2], i.x1, Unbounded);
    assert points[2] in column;
    FilteredKeepsFirst(column, MIN_SPACING);
  }

  // ---------------------------------------------------------------------
  // Writing the parent
  // ---------------------------------------------------------------------

  /**
   * The buffer branch's writes to the parent: bufferDelay = |d1 - d2| and
   * the buffer's output resistance; the header copy also sets the buffer's
   * input capacitance, main.cpp instead adds the intrinsic delay to the
   * parent's Elmore delay when x < 0. isBuffered is never set.
   */
  function WithBuffer(parent: Tree, i: Inputs, cfg: Config, branch: Branch): (r: Tree)
    requires parent.Node?
  {
    match cfg.variant
    case Headers =>
      parent.(bufferDelay := AbsR(i.d1 - i.d2), resistance := cfg.bufferOutputResistance,
              capacitance := cfg.bufferInputCapacitance)
    case Monolith =>
      parent.(bufferDelay := AbsR(i.d1 - i.d2), resistance := cfg.bufferOutputResistance,
              elmoreDelay := if branch == BeyondFirst then parent.elmoreDelay + cfg.bufferIntrinsicDelay
                             else parent.elmoreDelay)
  }

  /** `linear_planar_dme` is called without a clock location: (-1, -1). */
  const NO_CLOCK: Point := At(-1.0, -1.0)

  /**
   * The parent after the assignment loop: the free cell nearest to the
   * first embedded point, child 1's tier and the type "Merging Point".
   */
  function Place(parent: Tree, solutions: seq<Point>, z1: int): (r: Tree)
    requires parent.Node? && |solutions| >= 1
  {
    var first := DmePoints(solutions, NO_CLOCK)[0];
    var free := NearestFree(parent, RoundCoordinates(first), DEFAULT_MAX_DISTANCE);
    parent.(x := Trunc(free.x), y := Trunc(free.y), z := z1, nodeType := "Merging Point")
  }

  /** The first embedded point is the rounded centre of the candidates, so the parent goes to the free cell nearest to it. */
  lemma PlaceAtCentre(parent: Tree, solutions: seq<Point>, z1: int)
    requires parent.Node? && |solutions| >= 1
    ensures var free := NearestFree(parent, RoundCoordinates(Center(solutions)), DEFAULT_MAX_DISTANCE);
      Place(parent, solutions, z1).x == Trunc(free.x) && Place(parent, solutions, z1).y == Trunc(free.y)
  {
    DmePointsShape(solutions, NO_CLOCK);
    RoundTwice(Center(solutions));
  }

  // ---------------------------------------------------------------------
  // ZeroSkewMerge
  // ---------------------------------------------------------------------

  /** The value `ZeroSkewMerge` returns and the parent it leaves behind. */
  datatype Merged = Merged(length: real, tree: Tree)

  /**
   * The value returned as written: x L in range, l' for x > 1, and 0 for
   * x < 0, where the branch re-declares l' locally and the function returns
   * the outer l', still 0.
   */
  function ReturnedLengthAsWritten(i: Inputs, x: real, branch: Branch, e: Extension): real
  {
    match branch
    case InRange => x * i.length as real
    case BeyondSecond => e.lPrime
    case BeyondFirst => 0.0
  }

  /** The value returned, with both out-of-range branches returning their l'. */
  function ReturnedLength(i: Inputs, x: real, branch: Branch, e: Extension): real
  {
    if branch == InRange then x * i.length as real else e.lPrime
  }

  /**
   * A merge whose tapping fraction is -1.5: x < 0, a buffer goes in and l'
   * becomes L = 1, yet the value returned as written is 0.
   */
  function ShadowExample(): Inputs
  {
    Inputs(2.0, 0.0, 0.0, 0.0, 1, 0.0, 0.0, 0.0, 0.0, 0)
  }

  lemma ShadowedLengthDiffers(cfg: Config)
    requires IsSqrt(cfg.sqrt) && cfg.wireResistance == 1.0 && cfg.wireCapacitance == 1.0
    ensures TappingPoint(ShadowExample(), cfg) == Success(-1.5)
    ensures Extend(ShadowExample(), cfg, BeyondFirst) == Success(Extension(1.0, 0, true))
    ensures ReturnedLengthAsWritten(ShadowExample(), -1.5, BeyondFirst, Extension(1.0, 0, true)) == 0.0
    ensures ReturnedLength(ShadowExample(), -1.5, BeyondFirst, Extension(1.0, 0, true)) == 1.0
  {
    var i := ShadowExample();
    assert Numerator(i, cfg) == -1.5;
    assert Denominator(i, cfg) == 1.0;
    OutOfRangeAlwaysBuffers(i, cfg);
  }

  /**
   * Out of range the corrected value is the length of wire laid from the
   * near child: l' (balancing the delays) without a buffer, L with one, in
   * both directions alike.
   */
  lemma ReturnedLengthIsWire(i: Inputs, cfg: Config, branch: Branch)
    requires branch != InRange && Extend(i, cfg, branch).Success?
    ensures var e := Extend(i, cfg, branch).value;
      ReturnedLength(i, 0.0, branch, e) == (if e.buffered then i.length as real else e.lPrime)
    ensures var e := Extend(i, cfg, branch).value;
      IsSqrt(cfg.sqrt) && !e.buffered ==>
        (branch == BeyondSecond ==> WireDelay(cfg, i.d1, ReturnedLength(i, 0.0, branch, e), i.c1) == i.d2) &&
        (branch == BeyondFirst ==> WireDelay(cfg, i.d2, ReturnedLength(i, 0.0, branch, e), i.c2) == i.d1)
  {
    if IsSqrt(cfg.sqrt) && !Extend(i, cfg, branch).value.buffered {
      ExtendBalances(i, cfg, branch);
    }
  }

  /**
   * The outcome of `ZeroSkewMerge` on the two children of `root`: the
   * common ancestor of two children is `root` itself, and it is the only
   * node written.
   */
  function MergeSpec(root: Tree, cfg: Config): Result<Merged>
    requires root.Node? && root.left.Node? && root.right.Node?
  {
    var i :- ReadInputs(root, cfg);
    var x :- TappingPoint(i, cfg);
    var branch := BranchOf(x);
    var e :- if branch == InRange then Success(Extension(0.0, 0, false)) else Extend(i, cfg, branch);
    var written := if e.buffered then WithBuffer(root, i, cfg, branch) else root;
    var solutions := Candidates(i, cfg, x, branch, e);
    if |solutions| == 0 then Failure(FrontOfEmpty)
    else Success(Merged(ReturnedLength(i, x, branch, e), Place(written, solutions, i.z1)))
  }

  /**
   * `ZeroSkewMerge(root, left.id, right.id)`: reads the inputs, computes the
   * tapping point, extends or buffers out of range, collects the candidates,
   * embeds them and writes the parent.
   */
  method ZeroSkewMerge(root: Tree, cfg: Config) returns (r: Result<Merged>)
    requires root.Node? && root.left.Node? && root.right.Node?
    ensures r == MergeSpec(root, cfg)
  {
    var read := ReadInputs(root, cfg);
    if read.Failure? {
      return Failure(read.error);
    }
    var i := read.value;
    var tap := TappingPoint(i, cfg);
    if tap.Failure? {
      return Failure(tap.error);
    }
    var x := tap.value;
    var branch := BranchOf(x);
    var parent := FindLCA(root, root.left.id, root.right.id);
    LcaOfChildrenIsParent(root);
    var e := Extension(0.0, 0, false);
    if branch != InRange {
      var extended := Extend(i, cfg, branch);
      if extended.Failure? {
        return Failure(extended.error);
      }
      e := extended.value;
      if e.buffered {
        parent := WithBuffer(parent, i, cfg, branch);
      }
    }
    var solutions := CollectCandidates(i, cfg, x, branch, e);
    if |solutions| == 0 {
      // linear_planar_dme reaches front() of an empty vector
      return Failure(FrontOfEmpty);
    }
    parent := AssignMergingPoint(parent, solutions, i.z1);
    return Success(Merged(ReturnedLength(i, x, branch, e), parent));
  }

  /**
   * The length a successful merge returns is the value returned as written
   * for x >= 0; for x < 0 it is the branch's own l', where the code as
   * written returns 0.
   */
  lemma MergeLengthAsWritten(root: Tree, cfg: Config)
    requires root.Node? && root.left.Node? && root.right.Node?
    requires MergeSpec(root, cfg).Success?
    ensures ReadInputs(root, cfg).Success? && TappingPoint(ReadInputs(root, cfg).value, cfg).Success?
    ensures var i := ReadInputs(root, cfg).value;
      var x := TappingPoint(i, cfg).value;
      x >= 0.0 ==>
        var e := if BranchOf(x) == InRange then Extension(0.0, 0, false) else Extend(i, cfg, BranchOf(x)).value;
        MergeSpec(root, cfg).value.length == ReturnedLengthAsWritten(i, x, BranchOf(x), e)
    ensures var i := ReadInputs(root, cfg).value;
      var x := TappingPoint(i, cfg).value;
      x < 0.0 ==>
        Extend(i, cfg, BeyondFirst).Success? &&
        ReturnedLengthAsWritten(i, x, BeyondFirst, Extend(i, cfg, BeyondFirst).value) == 0.0 &&
        MergeSpec(root, cfg).value.length == Extend(i, cfg, BeyondFirst).value.lPrime
  {
  }

  /** The candidate loops of the three branches. */
  method CollectCandidates(i: Inputs, cfg: Config, x: real, branch: Branch, e: Extension) returns (solutions: seq<Point>)
    ensures solutions == Candidates(i, cfg, x, branch, e)
  {
    if branch == InRange {
      var (s1, s2) := TapDistances(i, x, cfg);
      var solutions1 := SelectColumn(FindPoints(i.x1, i.y1, s1 as real), i.x1, Unbounded);
      var solutions2 := SelectColumn(FindPoints(i.x2, i.y2, s2 as real), i.x2, Unbounded);
      solutions := FilterPoints(solutions1, MIN_SPACING);
      solutions := solutions + solutions2;
    } else if branch == BeyondSecond {
      solutions := SelectColumn(FindPoints(i.x2, i.y2, (e.extension + i.length) as real), i.x2, LayoutBound(cfg));
    } else {
      solutions := SelectColumn(FindPoints(i.x1, i.y1, (e.extension + i.length) as real), i.x1, LayoutBound(cfg));
    }
  }

  /**
   * Embeds the candidates and writes the first embedded point, moved to the
   * nearest free cell, onto each collected ancestor; the walk collects only
   * the parent.
   */
  method AssignMergingPoint(parent: Tree, solutions: seq<Point>, z1: int) returns (written: Tree)
    requires parent.Node? && parent.left.Node? && parent.right.Node? && |solutions| >= 1
    ensures written == Place(parent, solutions, z1)
  {
    var mergingPoints := LinearPlanarDme(solutions, NO_CLOCK);
    var ancestors := Ancestors(parent);
    DmePointsShape(solutions, NO_CLOCK);
    written := parent;
    for k := 0 to MinI(|mergingPoints.value|, |ancestors|)
      invariant written == if k == 0 then parent else Place(parent, solutions, z1)
    {
      var roundedPoint := RoundCoordinates(mergingPoints.value[k]);
      var freePoint := FindNearestFreePoint(written, roundedPoint, DEFAULT_MAX_DISTANCE);
      written := written.(x := Trunc(freePoint.x), y := Trunc(freePoint.y), z := z1, nodeType := "Merging Point");
    }
  }

  /**
   * The ancestor walk: starting at the children's common ancestor, each step
   * asks for the common ancestor of the current node and the root, which is
   * the root, so the walk stops after the parent.
   */
  method Ancestors(root: Tree) returns (ancestors: seq<Tree>)
    requires root.Node? && root.left.Node? && root.right.Node?
    ensures ancestors == [root]
  {
    ancestors := [];
    var current := FindLCA(root, root.left.id, root.right.id);
    LcaOfChildrenIsParent(root);
    var reachedRoot := false;
    while current.Node? && !reachedRoot
      invariant !reachedRoot ==> ancestors == [] && current == root
      invariant reachedRoot ==> ancestors == [root]
      decreases if reachedRoot then 0 else 1
    {
      ancestors := ancestors + [current];
      current := FindLCA(root, current.id, root.id);
      LcaWithRootIsRoot(root, root.id);
      reachedRoot := current == root;
    }
  }

  /**
   * A merge changes only the parent's position, tier, type and buffer
   * fields: its id, sinks, colour, cluster, isBuffered and both children
   * stay. The type becomes "Merging Point" and the tier is child 1's.
   */
  lemma MergeFrame(root: Tree, cfg: Config)
    requires root.Node? && root.left.Node? && root.right.Node?
    requires MergeSpec(root, cfg).Success?
    ensures var t := MergeSpec(root, cfg).value.tree;
      t == root.(x := t.x, y := t.y, z := t.z, nodeType := t.nodeType, bufferDelay := t.bufferDelay,
                 resistance := t.resistance, capacitance := t.capacitance, elmoreDelay := t.elmoreDelay)
    ensures var t := MergeSpec(root, cfg).value.tree;
      t.nodeType == "Merging Point" && t.z == FindNodeById(root, root.left.id).z
  {
    var i := ReadInputs(root, cfg).value;
    ReadInputsTier(root, cfg);
    var x := TappingPoint(i, cfg).value;
    var branch := BranchOf(x);
    var e := if branch == InRange then Extension(0.0, 0, false) else Extend(i, cfg, branch).value;
    var written := if e.buffered then WithBuffer(root, i, cfg, branch) else root;
    var solutions := Candidates(i, cfg, x, branch, e);
    assert MergeSpec(root, cfg).value.tree == Place(written, solutions, i.z1);
  }

  /** Child 1's tier is the one read. */
  lemma ReadInputsTier(root: Tree, cfg: Config)
    requires root.Node? && root.left.Node? && root.right.Node?
    requires ReadInputs(root, cfg).Success?
    ensures ReadInputs(root, cfg).value.z1 == FindNodeById(root, root.left.id).z
  {
  }

  /**
   * The buffer fields: unchanged in range and without a buffer; with one,
   * bufferDelay = |d1 - d2| and the buffer's output resistance, plus the
   * buffer's input capacitance in the header copy; main.cpp keeps the
   * capacitance and adds the intrinsic delay to the Elmore delay when x < 0.
   */
  lemma MergeBufferFields(root: Tree, cfg: Config)
    requires root.Node? && root.left.Node? && root.right.Node?
    requires MergeSpec(root, cfg).Success?
    ensures var i := ReadInputs(root, cfg).value;
      var x := TappingPoint(i, cfg).value;
      var t := MergeSpec(root, cfg).value.tree;
      var buffered := BranchOf(x) != InRange && Extend(i, cfg, BranchOf(x)).value.buffered;
      (!buffered ==> t.bufferDelay == root.bufferDelay && t.resistance == root.resistance &&
                     t.capacitance == root.capacitance && t.elmoreDelay == root.elmoreDelay) &&
      (buffered ==> t.bufferDelay == AbsR(i.d1 - i.d2) && t.resistance == cfg.bufferOutputResistance &&
                    (cfg.variant == Headers ==> t.capacitance == cfg.bufferInputCapacitance) &&
                    (cfg.variant == Monolith ==>
                       t.capacitance == root.capacitance &&
                       t.elmoreDelay == root.elmoreDelay + (if BranchOf(x) == BeyondFirst then cfg.bufferIntrinsicDelay else 0.0)))
  {
  }

  /**
   * An in-range merge of children at non-negative coordinates cannot run
   * out of candidates: it fails only when a child stores no sinks or the
   * denominator is zero.
   */
  lemma InRangeMergeSucceeds(root: Tree, cfg: Config)
    requires root.Node? && root.left.Node? && root.right.Node?
    requires ReadInputs(root, cfg).Success?
    requires TappingPoint(ReadInputs(root, cfg).value, cfg).Success?
    requires 0.0 <= TappingPoint(ReadInputs(root, cfg).value, cfg).value <= 1.0
    requires FindNodeById(root, root.left.id).x >= 0 && FindNodeById(root, root.left.id).y >= 0
    ensures MergeSpec(root, cfg).Success?
    ensures MergeSpec(root, cfg).value.length ==
      TappingPoint(ReadInputs(root, cfg).value, cfg).value * ReadInputs(root, cfg).value.length as real
  {
    var i := ReadInputs(root, cfg).value;
    InRangeCandidates(i, cfg, TappingPoint(i, cfg).value);
  }

  // ---------------------------------------------------------------------
  // zeroSkewTree
  // ---------------------------------------------------------------------

  /**
   * `zeroSkewTree`: leaves and null are returned as they are; otherwise both
   * subtrees are processed first, and the node is merged when both children
   * now have a location. Each merge sees only the current subtree.
   */
  function ZeroSkewTreeSpec(t: Tree, cfg: Config): Result<Tree>
  {
    if t.Nil? || (t.left.Nil? && t.right.Nil?) then Success(t)
    else
      var left :- ZeroSkewTreeSpec(t.left, cfg);
      var right :- ZeroSkewTreeSpec(t.right, cfg);
      var joined := t.(left := left, right := right);
      if HasPhysicalLocation(left) && HasPhysicalLocation(right) then
        var merged :- MergeSpec(joined, cfg);
        Success(merged.tree)
      else Success(joined)
  }

  /** The post-order pass, as a recursive method over the tree. */
  method ZeroSkewTree(root: Tree, cfg: Config) returns (r: Result<Tree>)
    ensures r == ZeroSkewTreeSpec(root, cfg)
  {
    if root.Nil? || (root.left.Nil? && root.right.Nil?) {
      return Success(root);
    }
    var left := ZeroSkewTree(root.left, cfg);
    if left.Failure? {
      return Failure(left.error);
    }
    var right := ZeroSkewTree(root.right, cfg);
    if right.Failure? {
      return Failure(right.error);
    }
    var joined := root.(left := left.value, right := right.value);
    if HasPhysicalLocation(joined.left) && HasPhysicalLocation(joined.right) {
      var merged := ZeroSkewMerge(joined, cfg);
      if merged.Failure? {
        return Failure(merged.error);
      }
      return Success(merged.value.tree);
    }
    return Success(joined);
  }

  /** Same shape and ids, leaves untouched, and only the merge fields written on the other nodes. */
  predicate MergeOnly(a: Tree, b: Tree)
  {
    a.Node? && b.Node? && a.id == b.id && a.sinks == b.sinks && a.color == b.color && a.clusterId == b.clusterId &&
    a.isBuffered == b.isBuffered && (IsLeaf(a) ==> Own(a) == Own(b))
  }

  /**
   * The pass keeps the shape, every id, sink list, colour, cluster and
   * isBuffered flag, and every leaf as it was; the leaves are the same
   * sequence before and after.
   */
  lemma {:induction false} ZeroSkewTreeFrame(t: Tree, cfg: Config)
    requires ZeroSkewTreeSpec(t, cfg).Success?
    ensures Pointwise(t, ZeroSkewTreeSpec(t, cfg).value, MergeOnly)
    ensures Leaves(ZeroSkewTreeSpec(t, cfg).value) == Leaves(t)
  {
    if t.Node? && !(t.left.Nil? && t.right.Nil?) {
      ZeroSkewTreeFrame(t.left, cfg);
      ZeroSkewTreeFrame(t.right, cfg);
      var joined := t.(left := ZeroSkewTreeSpec(t.left, cfg).value, right := ZeroSkewTreeSpec(t.right, cfg).value);
      var out := ZeroSkewTreeSpec(t, cfg).value;
      if HasPhysicalLocation(joined.left) && HasPhysicalLocation(joined.right) {
        assert out == MergeSpec(joined, cfg).value.tree;
        MergeFrame(joined, cfg);
        assert out.left == joined.left && out.right == joined.right;
      } else {
        assert out == joined;
      }
      assert MergeOnly(t, out);
      assert out.left.Nil? == t.left.Nil? && out.right.Nil? == t.right.Nil?;
      assert Leaves(out) == Leaves(out.left) + Leaves(out.right);
    }
  }

  /** A node whose two processed children both have a location comes out as a merging point. */
  lemma ZeroSkewTreeMergesLocatedPairs(t: Tree, cfg: Config)
    requires ZeroSkewTreeSpec(t, cfg).Success? && t.Node? && !IsLeaf(t)
    requires HasPhysicalLocation(ZeroSkewTreeSpec(t, cfg).value.left) &&
      HasPhysicalLocation(ZeroSkewTreeSpec(t, cfg).value.right)
    ensures ZeroSkewTreeSpec(t, cfg).value.nodeType == "Merging Point"
  {
    var joined := t.(left := ZeroSkewTreeSpec(t.left, cfg).value, right := ZeroSkewTreeSpec(t.right, cfg).value);
    if HasPhysicalLocation(joined.left) && HasPhysicalLocation(joined.right) {
      MergeFrame(joined, cfg);
    }
  }
}
