/**
 * Abstract topology generation: the coordinate jitter that separates
 * stacked sinks, the die-boundary cut, and the recursive builder that splits
 * a sink list into a binary tree, numbering nodes from a running counter.
 */
module Builder {
  import opened Numerics
  import opened Structures
  import opened Sorting
  import opened Utilities

  // ---------------------------------------------------------------------
  // Coordinate jitter
  // ---------------------------------------------------------------------

  /** `areCoordsNearlyIdentical` with threshold 1: within one cell in x and y, on different dies. */
  predicate AreCoordsNearlyIdentical(s1: Sink, s2: Sink)
  {
    Abs(s1.x - s2.x) <= 1 && Abs(s1.y - s2.y) <= 1 && s1.z != s2.z
  }

  /** Sink `j` moved one cell diagonally. */
  function Nudged(s: Sink): Sink
  {
    s.(x := s.x + 1, y := s.y + 1)
  }

  /** Row `i` of the jitter from column `j` on: compares sink i with every later sink. */
  function AdjustRow(s: seq<Sink>, i: nat, j: nat): (r: seq<Sink>)
    requires i < |s|
    ensures |r| == |s|
    decreases |s| - j
  {
    if j >= |s| then s
    else
      var s' := if AreCoordsNearlyIdentical(s[i], s[j]) then s[j := Nudged(s[j])] else s;
      AdjustRow(s', i, j + 1)
  }

  /** Rows `i`, `i + 1`, ... of the jitter. */
  function AdjustFrom(s: seq<Sink>, i: nat): (r: seq<Sink>)
    ensures |r| == |s|
    decreases |s| - i
  {
    if i >= |s| then s else AdjustFrom(AdjustRow(s, i, i + 1), i + 1)
  }

  /** The list `adjustNearlyIdenticalCoords` returns. */
  function Adjusted(sinks: seq<Sink>): seq<Sink>
  {
    AdjustFrom(sinks, 0)
  }

  /**
   * `adjustNearlyIdenticalCoords`: for every pair i < j, in order, a sink j
   * that is nearly identical to sink i (as both currently are) moves by
   * (+1, +1).
   */
  method AdjustNearlyIdenticalCoords(sinks: seq<Sink>) returns (r: seq<Sink>)
    ensures r == Adjusted(sinks)
  {
    r := sinks;
    var i := 0;
    while i < |r|
      invariant |r| == |sinks| && 0 <= i <= |r|
      invariant AdjustFrom(r, i) == Adjusted(sinks)
    {
      var j := i + 1;
      while j < |r|
        invariant |r| == |sinks| && i + 1 <= j <= |r|
        invariant AdjustFrom(AdjustRow(r, i, j), i + 1) == Adjusted(sinks)
      {
        if AreCoordsNearlyIdentical(r[i], r[j]) {
          r := r[j := Nudged(r[j])];
        }
        j := j + 1;
      }
      i := i + 1;
    }
  }

  /** `b` is `a` moved diagonally by some amount: same dx and dy, every other field kept. */
  predicate Diagonal(a: Sink, b: Sink)
  {
    b == a.(x := b.x, y := a.y + (b.x - a.x))
  }

  /** Every sink of `cur` is the same-index sink of `orig` moved diagonally by 0..bound(k). */
  predicate ShiftedWithin(orig: seq<Sink>, cur: seq<Sink>, i: nat, j: nat)
  {
    |cur| == |orig| &&
    forall k :: 0 <= k < |orig| ==>
      Diagonal(orig[k], cur[k]) && 0 <= cur[k].x - orig[k].x <= MinI(k, if k < j then i + 1 else i)
  }

  lemma {:induction false} AdjustRowShift(orig: seq<Sink>, s: seq<Sink>, i: nat, j: nat)
    requires i < j && i < |s|
    requires ShiftedWithin(orig, s, i, j)
    ensures ShiftedWithin(orig, AdjustRow(s, i, j), i, |s|)
    decreases |s| - j
  {
    if j < |s| {
      var s' := if AreCoordsNearlyIdentical(s[i], s[j]) then s[j := Nudged(s[j])] else s;
      NudgeShift(orig, s, i, j);
      AdjustRowShift(orig, s', i, j + 1);
    } else {
      assert AdjustRow(s, i, j) == s;
    }
  }

  /** Comparing sink j with sink i moves sink j by at most one step more, and no other sink. */
  lemma NudgeShift(orig: seq<Sink>, s: seq<Sink>, i: nat, j: nat)
    requires i < j < |s| && ShiftedWithin(orig, s, i, j)
    ensures ShiftedWithin(orig, if AreCoordsNearlyIdentical(s[i], s[j]) then s[j := Nudged(s[j])] else s, i, j + 1)
  {
  }

  lemma {:induction false} AdjustFromShift(orig: seq<Sink>, s: seq<Sink>, i: nat)
    requires ShiftedWithin(orig, s, i, 0)
    ensures ShiftedWithin(orig, AdjustFrom(s, i), |s|, 0)
    decreases |s| - i
  {
    if i < |s| {
      AdjustRowShift(orig, s, i, i + 1);
      var s' := AdjustRow(s, i, i + 1);
      ShiftedRowDone(orig, s', i);
      AdjustFromShift(orig, s', i + 1);
      assert AdjustFrom(s, i) == AdjustFrom(s', i + 1) && |s'| == |s|;
    } else {
      ShiftedPastEnd(orig, s, i);
    }
  }

  /** Once row i has been compared with every later sink, every shift is within i + 1. */
  lemma ShiftedRowDone(orig: seq<Sink>, s: seq<Sink>, i: nat)
    requires ShiftedWithin(orig, s, i, |s|)
    ensures ShiftedWithin(orig, s, i + 1, 0)
  {
  }

  /** Past the end of the list, sink k has moved by at most k. */
  lemma ShiftedPastEnd(orig: seq<Sink>, s: seq<Sink>, i: nat)
    requires i >= |s| && ShiftedWithin(orig, s, i, 0)
    ensures ShiftedWithin(orig, s, |s|, 0)
  {
    forall k | 0 <= k < |orig|
      ensures MinI(k, i) == MinI(k, |s|)
    {
    }
  }

  /** Before the jitter, no sink has moved. */
  lemma NothingShiftedYet(sinks: seq<Sink>)
    ensures ShiftedWithin(sinks, sinks, 0, 0)
  {
    forall k | 0 <= k < |sinks|
      ensures Diagonal(sinks[k], sinks[k]) && MinI(k, 0) == 0
    {
      assert sinks[k].(x := sinks[k].x, y := sinks[k].y + 0) == sinks[k];
    }
  }

  /**
   * The jitter keeps the list length and, for every sink, z, the input
   * capacitance and every other field; it only moves sink k along the
   * diagonal by 0..k cells, so sink 0 never moves.
   */
  lemma AdjustedShape(sinks: seq<Sink>)
    ensures |Adjusted(sinks)| == |sinks|
    ensures forall k :: 0 <= k < |sinks| ==>
      Diagonal(sinks[k], Adjusted(sinks)[k]) && 0 <= Adjusted(sinks)[k].x - sinks[k].x <= k
    ensures |sinks| > 0 ==> Adjusted(sinks)[0] == sinks[0]
  {
    NothingShiftedYet(sinks);
    AdjustFromShift(sinks, sinks, 0);
    forall k | 0 <= k < |sinks|
      ensures 0 <= Adjusted(sinks)[k].x - sinks[k].x <= k
    {
      assert MinI(k, |sinks|) == k;
    }
  }

  // ---------------------------------------------------------------------
  // Zcut
  // ---------------------------------------------------------------------

  /**
   * The side a sink goes to in a Z-cut, given the clock source's die `zs`
   * and the die span zmin..zmax: true for the top group.
   */
  predicate GoesTop(z: int, zs: int, zmin: int, zmax: int)
  {
    if zs <= zmin then z != zmin
    else if zs >= zmax then z == zmax
    else z >= zs
  }

  /** The sinks of `s` on the given side, in their original order. */
  function ZSide(s: seq<Sink>, zs: int, zmin: int, zmax: int, top: bool): (r: seq<Sink>)
    ensures |r| <= |s|
  {
    if |s| == 0 then []
    else
      var rest := ZSide(s[..|s| - 1], zs, zmin, zmax, top);
      if GoesTop(s[|s| - 1].z, zs, zmin, zmax) == top then rest + [s[|s| - 1]] else rest
  }

  /**
   * `Zcut`: splits a non-empty list into the top group St and the bottom
   * group Sb around the clock source's die. An empty list throws.
   */
  method Zcut(S: seq<Sink>, zs: int) returns (r: Result<(seq<Sink>, seq<Sink>)>)
    ensures |S| == 0 <==> r.Failure?
    ensures r.Success? ==>
      var zmin, zmax := MinCoord(S, Z), MaxCoord(S, Z);
      r.value.0 == ZSide(S, zs, zmin, zmax, true) && r.value.1 == ZSide(S, zs, zmin, zmax, false)
  {
    var zminR := GetMin(S, Z);
    var zmaxR := GetMax(S, Z);
    if zminR.Failure? || zmaxR.Failure? {
      return Failure(EmptySinkList);
    }
    var zmin, zmax := zminR.value, zmaxR.value;
    var st, sb := [], [];
    var i := 0;
    while i < |S|
      invariant 0 <= i <= |S|
      invariant st == ZSide(S[..i], zs, zmin, zmax, true)
      invariant sb == ZSide(S[..i], zs, zmin, zmax, false)
    {
      assert S[..i + 1][..i] == S[..i];
      ZSideLast(S[..i + 1], zs, zmin, zmax);
      var sink := S[i];
      if zs <= zmin {
        if sink.z == zmin { sb := sb + [sink]; } else { st := st + [sink]; }
      } else if zs >= zmax {
        if sink.z == zmax { st := st + [sink]; } else { sb := sb + [sink]; }
      } else {
        if sink.z >= zs { st := st + [sink]; } else { sb := sb + [sink]; }
      }
      i := i + 1;
    }
    assert S[..|S|] == S;
    return Success((st, sb));
  }

  /** Each sink goes to exactly one side: the two sides together are a rearrangement of the list. */
  lemma {:induction false} ZSidesPartition(s: seq<Sink>, zs: int, zmin: int, zmax: int)
    ensures multiset(ZSide(s, zs, zmin, zmax, true)) + multiset(ZSide(s, zs, zmin, zmax, false)) == multiset(s)
    ensures |ZSide(s, zs, zmin, zmax, true)| + |ZSide(s, zs, zmin, zmax, false)| == |s|
  {
    if |s| > 0 {
      ZSidesPartition(s[..|s| - 1], zs, zmin, zmax);
      assert s == s[..|s| - 1] + [s[|s| - 1]];
      ZSideLast(s, zs, zmin, zmax);
    }
  }

  /** The last sink joins exactly one side. */
  lemma ZSideLast(s: seq<Sink>, zs: int, zmin: int, zmax: int)
    requires |s| > 0
    ensures var init, last := s[..|s| - 1], s[|s| - 1];
      var top := GoesTop(last.z, zs, zmin, zmax);
      ZSide(s, zs, zmin, zmax, top) == ZSide(init, zs, zmin, zmax, top) + [last] &&
      ZSide(s, zs, zmin, zmax, !top) == ZSide(init, zs, zmin, zmax, !top)
  {
  }

  /** A sink on the given side is in the side's list. */
  lemma {:induction false} ZSideContains(s: seq<Sink>, zs: int, zmin: int, zmax: int, k: int)
    requires 0 <= k < |s|
    ensures s[k] in ZSide(s, zs, zmin, zmax, GoesTop(s[k].z, zs, zmin, zmax))
  {
    if k < |s| - 1 {
      assert s[..|s| - 1][k] == s[k];
      ZSideContains(s[..|s| - 1], zs, zmin, zmax, k);
    }
  }

  /** When the list spans more than one die, both sides of the cut are non-empty. */
  lemma ZcutBothSidesNonEmpty(s: seq<Sink>, zs: int)
    requires |s| > 0 && MinCoord(s, Z) < MaxCoord(s, Z)
    ensures |ZSide(s, zs, MinCoord(s, Z), MaxCoord(s, Z), true)| > 0
    ensures |ZSide(s, zs, MinCoord(s, Z), MaxCoord(s, Z), false)| > 0
  {
    var zmin, zmax := MinCoord(s, Z), MaxCoord(s, Z);
    ExtremesAttained(s, Z);
    var kmin :| 0 <= kmin < |s| && s[kmin].z == zmin;
    var kmax :| 0 <= kmax < |s| && s[kmax].z == zmax;
    ZSideContains(s, zs, zmin, zmax, kmin);
    ZSideContains(s, zs, zmin, zmax, kmax);
  }

  // ---------------------------------------------------------------------
  // Median split
  // ---------------------------------------------------------------------

  /** The sinks whose coordinate is below (`below`) or not below the threshold, in order. */
  function Split(s: seq<Sink>, axis: Axis, threshold: int, below: bool): (r: seq<Sink>)
    ensures |r| <= |s|
  {
    if |s| == 0 then []
    else
      var rest := Split(s[..|s| - 1], axis, threshold, below);
      if (Coord(s[|s| - 1], axis) < threshold) == below then rest + [s[|s| - 1]] else rest
  }

  lemma {:induction false} SplitPartition(s: seq<Sink>, axis: Axis, threshold: int)
    ensures multiset(Split(s, axis, threshold, true)) + multiset(Split(s, axis, threshold, false)) == multiset(s)
    ensures |Split(s, axis, threshold, true)| + |Split(s, axis, threshold, false)| == |s|
  {
    if |s| > 0 {
      var init, last := s[..|s| - 1], s[|s| - 1];
      SplitPartition(init, axis, threshold);
      assert s == init + [last];
      SplitLast(s, axis, threshold);
    }
  }

  /** The last sink joins exactly one part. */
  lemma SplitLast(s: seq<Sink>, axis: Axis, threshold: int)
    requires |s| > 0
    ensures var init, last := s[..|s| - 1], s[|s| - 1];
      var below := Coord(last, axis) < threshold;
      Split(s, axis, threshold, below) == Split(init, axis, threshold, below) + [last] &&
      Split(s, axis, threshold, !below) == Split(init, axis, threshold, !below)
  {
  }

  /** A sink at or above the threshold lands in the upper part. */
  lemma {:induction false} SplitContains(s: seq<Sink>, axis: Axis, threshold: int, k: int)
    requires 0 <= k < |s|
    ensures s[k] in Split(s, axis, threshold, Coord(s[k], axis) < threshold)
  {
    if k < |s| - 1 {
      assert s[..|s| - 1][k] == s[k];
      SplitContains(s[..|s| - 1], axis, threshold, k);
    }
  }

  /** The part at or above the median is never empty: the largest coordinate is in it. */
  lemma MedianUpperNonEmpty(s: seq<Sink>, axis: Axis)
    requires |s| > 0
    ensures |Split(s, axis, Median(s, axis), false)| > 0
  {
    MedianBounds(s, axis);
    ExtremesAttained(s, axis);
    var k :| 0 <= k < |s| && Coord(s[k], axis) == MaxCoord(s, axis);
    SplitContains(s, axis, Median(s, axis), k);
  }

  // ---------------------------------------------------------------------
  // AbsTreeGen3D
  // ---------------------------------------------------------------------

  /** How one call of the builder treats its list. */
  datatype Plan =
    | Single                                                 // one sink: a leaf
    | Cut(top: seq<Sink>, bottom: seq<Sink>, b1: int, b2: int) // two children with balances b1, b2

  /** The list the builder measures and splits: jittered in the headers, as given in main.cpp. */
  function Working(S: seq<Sink>, variant: Variant): (r: seq<Sink>)
    ensures |r| == |S|
  {
    if variant == Headers then (AdjustedShape(S); Adjusted(S)) else S
  }

  function Span(s: seq<Sink>, axis: Axis): int
    requires |s| > 0
  {
    MaxCoord(s, axis) - MinCoord(s, axis)
  }

  /** A Z-cut of the non-empty list `A` around die `zs`, with equal balances `b`. */
  function ZPlan(A: seq<Sink>, zs: int, b: int): (r: Plan)
    requires |A| > 0 && MinCoord(A, Z) < MaxCoord(A, Z)
    ensures r.Cut? && |r.top| + |r.bottom| == |A| && |r.top| > 0 && |r.bottom| > 0
  {
    var zmin, zmax := MinCoord(A, Z), MaxCoord(A, Z);
    ZSidesPartition(A, zs, zmin, zmax);
    ZcutBothSidesNonEmpty(A, zs);
    Cut(ZSide(A, zs, zmin, zmax, true), ZSide(A, zs, zmin, zmax, false), b, b)
  }

  /** A split of `A` at its median on `axis`, with balances B/2 and B - B/2. */
  function MedianPlan(A: seq<Sink>, axis: Axis, B: int): (r: Plan)
    requires |A| > 0
    ensures r.Cut? && |r.top| + |r.bottom| == |A| && |r.bottom| > 0
  {
    var m := Median(A, axis);
    SplitPartition(A, axis, m);
    MedianUpperNonEmpty(A, axis);
    Cut(Split(A, axis, m, true), Split(A, axis, m, false), TruncDiv(B, 2), B - TruncDiv(B, 2))
  }

  /**
   * The decision one call of `AbsTreeGen3D` takes: a leaf for one sink; a
   * Z-cut with balances 0, 0 when x and y are all equal but z differs; a Z-cut
   * with balances 1, 1 when z differs and B is 1; otherwise a split at the
   * median of x (when the x-span exceeds the y-span) or of y, strictly-below
   * going first, with balances B/2 and B - B/2. An empty list throws.
   */
  function PlanFor(S: seq<Sink>, B: int, cfg: Config): (r: Result<Plan>)
    ensures r.Failure? <==> |S| == 0
    ensures r.Success? && r.value.Cut? ==>
      |r.value.top| + |r.value.bottom| == |S| && |r.value.bottom| > 0
  {
    var A := Working(S, cfg.variant);
    if |A| == 0 then Failure(EmptySinkList) else Success(PlanOf(A, B, cfg.clockZ))
  }

  /** The decision on the non-empty working list `A`, the clock source on die `zs`. */
  function PlanOf(A: seq<Sink>, B: int, zs: int): (r: Plan)
    requires |A| > 0
    ensures r.Cut? ==> |r.top| + |r.bottom| == |A| && |r.bottom| > 0
  {
    if |A| == 1 then Single
    else if Span(A, X) == 0 && Span(A, Y) == 0 && Span(A, Z) >= 1 then ZPlan(A, zs, 0)
    else if Span(A, Z) >= 1 && B == 1 then ZPlan(A, zs, 1)
    else MedianPlan(A, if Span(A, X) > Span(A, Y) then X else Y, B)
  }

  /** Every node has two children or none. */
  predicate FullBinary(t: Tree)
  {
    t.Nil? || ((t.left.Nil? <==> t.right.Nil?) && FullBinary(t.left) && FullBinary(t.right))
  }

  /** The integers lo, lo + 1, ..., lo + n - 1. */
  function Range(lo: int, n: nat): (r: seq<int>)
    ensures |r| == n && forall k :: 0 <= k < n ==> r[k] == lo + k
  {
    seq(n, k => lo + k)
  }

  /**
   * A full binary tree whose ids are next, next + 1, ... in pre-order, after
   * which the counter reads `after`.
   */
  predicate Numbered(t: Tree, next: int, after: int)
  {
    t.Node? && FullBinary(t) && after == next + Size(t) && Ids(t) == Range(next, Size(t))
  }

  lemma JoinNumbered(root: Tree, l: Tree, r: Tree, next: int, mid: int, after: int)
    requires IsLeaf(root) && root.id == next
    requires Numbered(l, next + 1, mid) && Numbered(r, mid, after)
    ensures Numbered(root.(left := l, right := r), next, after)
  {
    var t := root.(left := l, right := r);
    assert Ids(t) == [next] + Ids(l) + Ids(r);
    RangeJoin(next, Size(l), Size(r));
  }

  /** Consecutive integers: the first, then the next a, then the b after those. */
  lemma RangeJoin(lo: int, a: nat, b: nat)
    ensures Range(lo, 1 + a + b) == [lo] + Range(lo + 1, a) + Range(lo + 1 + a, b)
  {
  }

  /**
   * The tree `AbsTreeGen3D(S, B)` builds when the counter starts at `next`,
   * with the counter's final value. Every node takes the next id before its
   * children are built; an inner node keeps its whole input list S.
   */
  function BuildSpec(S: seq<Sink>, B: int, next: int, cfg: Config): (r: Result<(Tree, int)>)
    ensures r.Success? ==> |S| >= 1
    ensures r.Success? ==> r.value.0.Node? && r.value.0.sinks == S
    decreases |S|
  {
    match PlanFor(S, B, cfg)
    case Failure(e) => Failure(e)
    case Success(Single) => Success((NewNode(S, "Gray", next), next + 1))
    case Success(Cut(top, bottom, b1, b2)) =>
      var root := NewNode(S, "Gray", next);
      var left := BuildSpec(top, b1, next + 1, cfg);
      if left.Failure? then Failure(left.error)
      else
        var right := BuildSpec(bottom, b2, left.value.1, cfg);
        if right.Failure? then Failure(right.error)
        else Success((root.(left := left.value.0, right := right.value.0), right.value.1))
  }

  /**
   * A built tree is full binary, its ids are the counter's values from
   * `next` on in pre-order, and the counter ends one past the last of them.
   */
  lemma {:induction false} BuildNumbered(S: seq<Sink>, B: int, next: int, cfg: Config)
    requires BuildSpec(S, B, next, cfg).Success?
    ensures Numbered(BuildSpec(S, B, next, cfg).value.0, next, BuildSpec(S, B, next, cfg).value.1)
    decreases |S|
  {
    var plan := PlanFor(S, B, cfg).value;
    if plan.Cut? {
      var left := BuildSpec(plan.top, plan.b1, next + 1, cfg);
      var right := BuildSpec(plan.bottom, plan.b2, left.value.1, cfg);
      BuildNumbered(plan.top, plan.b1, next + 1, cfg);
      BuildNumbered(plan.bottom, plan.b2, left.value.1, cfg);
      JoinNumbered(NewNode(S, "Gray", next), left.value.0, right.value.0, next, left.value.1, right.value.1);
    }
  }

  /** Ids grow from a parent to its descendants, and the left subtree's ids precede the right's. */
  lemma NumberedOrder(t: Tree, next: int, after: int)
    requires Numbered(t, next, after) && !IsLeaf(t)
    ensures forall i :: i in Ids(t.left) + Ids(t.right) ==> t.id < i
    ensures forall i, j :: i in Ids(t.left) && j in Ids(t.right) ==> i < j
  {
    assert Ids(t) == [t.id] + Ids(t.left) + Ids(t.right);
    forall i | i in Ids(t.left) + Ids(t.right)
      ensures t.id < i
    {
      var a :| 0 <= a < |Ids(t.left) + Ids(t.right)| && (Ids(t.left) + Ids(t.right))[a] == i;
      assert Ids(t)[1 + a] == i;
    }
    forall i, j | i in Ids(t.left) && j in Ids(t.right)
      ensures i < j
    {
      var a :| 0 <= a < |Ids(t.left)| && Ids(t.left)[a] == i;
      var b :| 0 <= b < |Ids(t.right)| && Ids(t.right)[b] == j;
      assert Ids(t)[1 + a] == i && Ids(t)[1 + |Ids(t.left)| + b] == j;
    }
  }

  /** One sink gives a childless node holding it; an empty list throws. */
  lemma BuildBaseCases(s: Sink, B: int, next: int, cfg: Config)
    ensures BuildSpec([s], B, next, cfg) == Success((NewNode([s], "Gray", next), next + 1))
    ensures BuildSpec([], B, next, cfg) == Failure(EmptySinkList)
  {
  }

  /**
   * Every input sink ends up in exactly one leaf: the leaves hold as many
   * sinks as the input, and without the jitter they hold exactly the input
   * sinks.
   */
  lemma {:induction false} BuildKeepsSinks(S: seq<Sink>, B: int, next: int, cfg: Config)
    requires BuildSpec(S, B, next, cfg).Success?
    ensures |LeafSinks(BuildSpec(S, B, next, cfg).value.0)| == |S|
    ensures cfg.variant == Monolith ==> multiset(LeafSinks(BuildSpec(S, B, next, cfg).value.0)) == multiset(S)
    decreases |S|
  {
    var plan := PlanFor(S, B, cfg);
    if plan.value.Cut? {
      var A := Working(S, cfg.variant);
      var left := BuildSpec(plan.value.top, plan.value.b1, next + 1, cfg);
      var right := BuildSpec(plan.value.bottom, plan.value.b2, left.value.1, cfg);
      BuildKeepsSinks(plan.value.top, plan.value.b1, next + 1, cfg);
      BuildKeepsSinks(plan.value.bottom, plan.value.b2, left.value.1, cfg);
      var t := BuildSpec(S, B, next, cfg).value.0;
      assert LeafSinks(t) == LeafSinks(left.value.0) + LeafSinks(right.value.0);
      if cfg.variant == Monolith {
        assert multiset(plan.value.top) + multiset(plan.value.bottom) == multiset(A) by {
          var dx, dy, dz := Span(A, X), Span(A, Y), Span(A, Z);
          var zmin, zmax := MinCoord(A, Z), MaxCoord(A, Z);
          if (dx == 0 && dy == 0 && dz >= 1) || (dz >= 1 && B == 1) {
            ZSidesPartition(A, cfg.clockZ, zmin, zmax);
          } else {
            var axis := if dx > dy then X else Y;
            SplitPartition(A, axis, Median(A, axis));
          }
        }
      }
    }
  }

  /** Three sinks on one die whose x-median is also their minimum x. */
  function SkewedSinks(): (r: seq<Sink>)
    ensures |r| == 3
  {
    [NewSink(0, 0, 1, 1.0), NewSink(0, 1, 1, 1.0), NewSink(5, 0, 1, 1.0)]
  }

  lemma SkewedSinksSpans()
    ensures Span(SkewedSinks(), X) == 5 && Span(SkewedSinks(), Y) == 1 && Span(SkewedSinks(), Z) == 0
  {
    var S := SkewedSinks();
    assert S[1..][1..] == [S[2]];
    assert MinCoord(S, X) == 0 && MaxCoord(S, X) == 5;
    assert MinCoord(S, Y) == 0 && MaxCoord(S, Y) == 1;
    assert MinCoord(S, Z) == 1 && MaxCoord(S, Z) == 1;
  }

  lemma SkewedSinksCoords()
    ensures Coords(SkewedSinks(), X) == [0, 0, 5]
  {
    var S := SkewedSinks();
    assert S[1..][1..] == [S[2]];
  }

  lemma SortThreeExample()
    ensures SortBy([0, 0, 5], IntKey) == [0, 0, 5]
  {
    SortTwoExample();
    assert [0, 0, 5][1..] == [0, 5];
  }

  lemma SortTwoExample()
    ensures SortBy([0, 5], IntKey) == [0, 5]
  {
    SortOneExample();
    assert [0, 5][1..] == [5];
  }

  lemma SortOneExample()
    ensures SortBy([5], IntKey) == [5]
  {
    assert [5][1..] == [];
  }

  lemma SkewedSinksMedian()
    ensures Median(SkewedSinks(), X) == 0
  {
    SkewedSinksCoords();
    SortThreeExample();
  }

  /** A median split can leave the lower part empty; the build then throws on it. */
  lemma EmptyLowerHalfThrows(cfg: Config, B: int, next: int)
    requires cfg.variant == Monolith
    ensures BuildSpec(SkewedSinks(), B, next, cfg) == Failure(EmptySinkList)
  {
    var S := SkewedSinks();
    var plan := MedianPlan(S, X, B);
    SkewedSinksPlan(B, cfg.clockZ);
    assert PlanFor(S, B, cfg) == Success(plan);
    assert BuildSpec(plan.top, plan.b1, next + 1, cfg) == Failure(EmptySinkList);
  }

  /** The three skewed sinks are cut at the median x = 0, which leaves nothing strictly below. */
  lemma SkewedSinksPlan(B: int, zs: int)
    ensures PlanOf(SkewedSinks(), B, zs) == MedianPlan(SkewedSinks(), X, B)
    ensures MedianPlan(SkewedSinks(), X, B).top == []
  {
    SkewedSinksSpans();
    SkewedSinksMedian();
    SkewedSinksLowerEmpty();
  }

  lemma SkewedSinksLowerEmpty()
    ensures Split(SkewedSinks(), X, 0, true) == []
  {
    var S := SkewedSinks();
    assert S[..2][..1] == [S[0]];
    assert S[..3][..2] == S[..2];
  }

  /**
   * One step of `BuildSpec`, stated against the plan: a failed plan fails,
   * a single sink is a leaf, and a cut fails with the first failing half or
   * joins both halves under the list's node.
   */
  lemma BuildStep(S: seq<Sink>, B: int, next: int, cfg: Config)
    ensures PlanFor(S, B, cfg).Failure? ==> BuildSpec(S, B, next, cfg) == Failure(PlanFor(S, B, cfg).error)
    ensures PlanFor(S, B, cfg).Success? && PlanFor(S, B, cfg).value.Single? ==>
              BuildSpec(S, B, next, cfg) == Success((NewNode(S, "Gray", next), next + 1))
    ensures PlanFor(S, B, cfg).Success? && PlanFor(S, B, cfg).value.Cut? ==>
              var p := PlanFor(S, B, cfg).value;
              var left := BuildSpec(p.top, p.b1, next + 1, cfg);
              (left.Failure? ==> BuildSpec(S, B, next, cfg) == Failure(left.error)) &&
              (left.Success? ==>
                 var right := BuildSpec(p.bottom, p.b2, left.value.1, cfg);
                 (right.Failure? ==> BuildSpec(S, B, next, cfg) == Failure(right.error)) &&
                 (right.Success? ==>
                    BuildSpec(S, B, next, cfg) ==
                    Success((NewNode(S, "Gray", next).(left := left.value.0, right := right.value.0), right.value.1))))
  {
  }

  /**
   * The first half of `AbsTreeGen3D`: jitter (headers only), measure the
   * spans, and choose between a leaf, a Z-cut and a median split.
   */
  method DecideSplit(S: seq<Sink>, B: int, cfg: Config) returns (plan: Result<Plan>)
    ensures plan == PlanFor(S, B, cfg)
  {
    var adjustedSinks := S;
    if cfg.variant == Headers {
      adjustedSinks := AdjustNearlyIdenticalCoords(S);
    }
    assert adjustedSinks == Working(S, cfg.variant);
    if |adjustedSinks| == 0 {
      // getMaxX / getMinX throw on an empty list
      return Failure(EmptySinkList);
    }
    var p := ChoosePlan(adjustedSinks, B, cfg.clockZ);
    return Success(p);
  }

  /** Measures the spans of the non-empty list `A` and takes the decision. */
  method ChoosePlan(A: seq<Sink>, B: int, zs: int) returns (plan: Plan)
    requires |A| > 0
    ensures plan == PlanOf(A, B, zs)
  {
    var deltaX := MeasureSpan(A, X);
    var deltaY := MeasureSpan(A, Y);
    var deltaZ := MeasureSpan(A, Z);
    if |A| == 1 {
      plan := Single;
    } else if deltaX == 0 && deltaY == 0 && deltaZ >= 1 {
      plan := ZcutPlan(A, zs, 0);
    } else if deltaZ >= 1 && B == 1 {
      plan := ZcutPlan(A, zs, 1);
    } else {
      plan := MedianCut(A, deltaX > deltaY, B);
    }
  }

  /** `getMax - getMin` on one axis of a non-empty list. */
  method MeasureSpan(A: seq<Sink>, axis: Axis) returns (delta: int)
    requires |A| > 0
    ensures delta == Span(A, axis)
  {
    delta := GetMax(A, axis).value - GetMin(A, axis).value;
  }

  /** The median branch of `AbsTreeGen3D`: split on x when `onX`, else on y, balances B/2 and B - B/2. */
  method MedianCut(A: seq<Sink>, onX: bool, B: int) returns (plan: Plan)
    requires |A| > 0
    ensures plan == MedianPlan(A, if onX then X else Y, B)
  {
    var st, sb := MedianSplit(A, onX);
    var b1 := TruncDiv(B, 2);
    var b2 := B - b1;
    plan := Cut(st, sb, b1, b2);
  }

  /** The Z-cut branch of `AbsTreeGen3D`, with both balances `b`. */
  method ZcutPlan(A: seq<Sink>, zs: int, b: int) returns (plan: Plan)
    requires |A| > 0 && MinCoord(A, Z) < MaxCoord(A, Z)
    ensures plan == ZPlan(A, zs, b)
  {
    var cut := Zcut(A, zs);
    plan := Cut(cut.value.0, cut.value.1, b, b);
  }

  /** The median partition of `AbsTreeGen3D`: strictly below the median goes to St. */
  method MedianSplit(s: seq<Sink>, onX: bool) returns (st: seq<Sink>, sb: seq<Sink>)
    requires |s| > 0
    ensures var axis := if onX then X else Y;
      st == Split(s, axis, Median(s, axis), true) && sb == Split(s, axis, Median(s, axis), false)
  {
    var medianX := CalculateMedian(s, X);
    var medianY := CalculateMedian(s, Y);
    ghost var axis := if onX then X else Y;
    ghost var median := if onX then medianX else medianY;
    st, sb := [], [];
    var i := 0;
    while i < |s|
      invariant 0 <= i <= |s|
      invariant st == Split(s[..i], axis, median, true) && sb == Split(s[..i], axis, median, false)
    {
      assert s[..i + 1][..i] == s[..i];
      SplitLast(s[..i + 1], axis, median);
      var sink := s[i];
      if onX {
        if sink.x < medianX { st := st + [sink]; } else { sb := sb + [sink]; }
      } else {
        if sink.y < medianY { st := st + [sink]; } else { sb := sb + [sink]; }
      }
      i := i + 1;
    }
    assert s[..|s|] == s;
  }
}
