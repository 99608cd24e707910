/*
 * The Prim minimum-spanning-tree estimate `calculateWirelength`
 * (tree.hpp:503-540): keeps a flag and a best-known connection length per
 * sink in two arrays, adds one sink per round and relaxes the others.
 */
module Wirelength {
  import opened Structures
  import opened Utilities

  /** `std::numeric_limits<int>::max()`, the "not reached yet" distance. */
  const INT_MAX: int := 2147483647

  /** Every pair of sinks is closer than the sentinel distance. */
  predicate Reachable(sinks: seq<Sink>)
  {
    forall i, j :: 0 <= i < |sinks| && 0 <= j < |sinks| ==> ManhattanDistance(sinks[i], sinks[j]) < INT_MAX
  }

  function Sum(s: seq<int>): int
  {
    if |s| == 0 then 0 else Sum(s[..|s| - 1]) + s[|s| - 1]
  }

  /** The sum of `d[k]` over the positions `k` flagged in `m`. */
  function SumWhere(m: seq<bool>, d: seq<int>): int
    requires |m| == |d|
  {
    if |m| == 0 then 0
    else SumWhere(m[..|m| - 1], d[..|d| - 1]) + (if m[|m| - 1] then d[|d| - 1] else 0)
  }

  /** How many positions are flagged. */
  function Count(m: seq<bool>): (c: nat)
    ensures c <= |m|
  {
    if |m| == 0 then 0 else Count(m[..|m| - 1]) + (if m[|m| - 1] then 1 else 0)
  }

  /**
   * `parent` and `rank` describe a tree spanning all sinks, rooted at sink
   * 0: every other sink hangs off a sink that joined it earlier.
   */
  ghost predicate SpanningTree(n: nat, parent: seq<int>, rank: seq<int>)
  {
    |parent| == n && |rank| == n &&
    forall v :: 0 < v < n ==> 0 <= parent[v] < n && rank[parent[v]] < rank[v]
  }

  /** The length of each tree edge, indexed by its lower end; sink 0 has none. */
  function Edges(sinks: seq<Sink>, parent: seq<int>): (e: seq<int>)
    requires |parent| == |sinks| && forall v :: 0 < v < |sinks| ==> 0 <= parent[v] < |sinks|
    ensures |e| == |sinks|
  {
    seq(|sinks|, v requires 0 <= v < |sinks| =>
      if v == 0 then 0 else ManhattanDistance(sinks[parent[v]], sinks[v]))
  }

  /** The star from sink 0: the length of wiring every sink straight to sink 0. */
  function Star(sinks: seq<Sink>): (e: seq<int>)
    requires |sinks| > 0
    ensures |e| == |sinks|
  {
    seq(|sinks|, v requires 0 <= v < |sinks| => ManhattanDistance(sinks[0], sinks[v]))
  }

  lemma {:induction false} SumWhereFlag(m: seq<bool>, d: seq<int>, u: int)
    requires |m| == |d| && 0 <= u < |m| && !m[u]
    ensures SumWhere(m[u := true], d) == SumWhere(m, d) + d[u]
    ensures Count(m[u := true]) == Count(m) + 1
    decreases |m|
  {
    var n := |m|;
    if u < n - 1 {
      assert m[u := true][..n - 1] == m[..n - 1][u := true];
      SumWhereFlag(m[..n - 1], d[..n - 1], u);
    } else {
      assert m[u := true][..n - 1] == m[..n - 1];
    }
  }

  lemma {:induction false} SumWhereFrame(m: seq<bool>, d: seq<int>, d': seq<int>)
    requires |m| == |d| == |d'|
    requires forall k :: 0 <= k < |m| && m[k] ==> d[k] == d'[k]
    ensures SumWhere(m, d) == SumWhere(m, d')
    decreases |m|
  {
    if |m| > 0 {
      SumWhereFrame(m[..|m| - 1], d[..|d| - 1], d'[..|d'| - 1]);
    }
  }

  lemma {:induction false} SumWhereAll(m: seq<bool>, d: seq<int>)
    requires |m| == |d| && Count(m) == |m|
    ensures forall k :: 0 <= k < |m| ==> m[k]
    ensures SumWhere(m, d) == Sum(d)
    decreases |m|
  {
    if |m| > 0 {
      var n := |m|;
      assert Count(m[..n - 1]) <= n - 1;
      SumWhereAll(m[..n - 1], d[..n - 1]);
      forall k | 0 <= k < n
        ensures m[k]
      {
        if k < n - 1 {
          assert m[..n - 1][k] == m[k];
        }
      }
    }
  }

  lemma {:induction false} SomeUnflagged(m: seq<bool>)
    requires Count(m) < |m|
    ensures exists k :: 0 <= k < |m| && !m[k]
    decreases |m|
  {
    var n := |m|;
    if m[n - 1] {
      SomeUnflagged(m[..n - 1]);
      var k :| 0 <= k < n - 1 && !m[..n - 1][k];
      assert !m[k];
    }
  }

  lemma {:induction false} NoneFlagged(m: seq<bool>)
    requires forall k :: 0 <= k < |m| ==> !m[k]
    ensures Count(m) == 0
    decreases |m|
  {
    if |m| > 0 {
      NoneFlagged(m[..|m| - 1]);
    }
  }

  lemma {:induction false} SumMonotone(a: seq<int>, b: seq<int>)
    requires |a| == |b| && forall k :: 0 <= k < |a| ==> a[k] <= b[k]
    ensures Sum(a) <= Sum(b)
    decreases |a|
  {
    if |a| > 0 {
      SumMonotone(a[..|a| - 1], b[..|b| - 1]);
    }
  }

  /** With at most two sinks the only spanning tree is the single edge, if any. */
  lemma SmallSpanningTree(sinks: seq<Sink>, parent: seq<int>, rank: seq<int>)
    requires |sinks| <= 2 && SpanningTree(|sinks|, parent, rank)
    ensures |sinks| <= 1 ==> Sum(Edges(sinks, parent)) == 0
    ensures |sinks| == 2 ==> Sum(Edges(sinks, parent)) == ManhattanDistance(sinks[0], sinks[1])
  {
    var e := Edges(sinks, parent);
    if |sinks| == 1 {
      assert e[..0] == [];
    } else if |sinks| == 2 {
      assert parent[1] == 0;
      assert e[0] == 0 && e[1] == ManhattanDistance(sinks[0], sinks[1]);
      assert e[..1][..0] == [];
      assert Sum(e[..1]) == 0;
      assert e[..2] == e;
    }
  }

  /** Sink `k` is connected, or has a finite distance, through a tree edge to a connected sink. */
  ghost predicate EdgeOk(sinks: seq<Sink>, m: seq<bool>, d: seq<int>, parent: seq<int>, rank: seq<int>, k: int)
    requires |m| == |d| == |parent| == |rank| == |sinks| && 0 <= k < |sinks|
  {
    0 <= parent[k] < |sinks| && m[parent[k]] && d[k] == ManhattanDistance(sinks[parent[k]], sinks[k]) &&
    (m[k] ==> rank[parent[k]] < rank[k])
  }

  /** A connected sink other than 0, or one with a finite distance, hangs off a connected sink. */
  ghost predicate Hangs(sinks: seq<Sink>, m: seq<bool>, d: seq<int>, parent: seq<int>, rank: seq<int>, k: int)
    requires |m| == |d| == |parent| == |rank| == |sinks| && 0 <= k < |sinks|
  {
    k != 0 && (m[k] || d[k] < INT_MAX) ==> EdgeOk(sinks, m, d, parent, rank, k)
  }

  /**
   * What holds before round `i` of Prim's loop over flags `m` and distances
   * `d`, with `total` accumulated so far.
   */
  ghost predicate PrimInvariant(sinks: seq<Sink>, m: seq<bool>, d: seq<int>, parent: seq<int>, rank: seq<int>, i: int, total: int)
  {
    var n := |sinks|;
    |m| == |d| == |parent| == |rank| == n && Count(m) == i && total == SumWhere(m, d) &&
    (forall k :: 0 <= k < n && m[k] ==> 0 <= rank[k] < i) &&
    (forall k :: 0 <= k < n ==> Hangs(sinks, m, d, parent, rank, k)) &&
    (i == 0 ==> n > 0 && d[0] == 0 && forall k :: 0 <= k < n ==> !m[k] && (k != 0 ==> d[k] == INT_MAX)) &&
    (i >= 1 ==> m[0] && d[0] == 0 && forall k :: 0 <= k < n ==> d[k] <= ManhattanDistance(sinks[0], sinks[k]))
  }

  /** `u` is the first unflagged position of least distance. */
  predicate Nearest(m: seq<bool>, d: seq<int>, u: int)
    requires |m| == |d|
  {
    0 <= u < |m| && !m[u] &&
    (forall k :: 0 <= k < |m| && !m[k] ==> d[u] <= d[k]) &&
    (forall k :: 0 <= k < u && !m[k] ==> d[u] < d[k])
  }

  /** The distances after relaxing every unflagged sink through the newly added sink `u`. */
  function Relaxed(sinks: seq<Sink>, m: seq<bool>, d: seq<int>, u: int): (r: seq<int>)
    requires |m| == |d| == |sinks| && 0 <= u < |sinks|
    ensures |r| == |d|
    ensures forall k :: 0 <= k < |d| ==> r[k] <= d[k]
    ensures forall k :: 0 <= k < |d| && !m[k] ==> r[k] <= ManhattanDistance(sinks[u], sinks[k])
    ensures forall k :: 0 <= k < |d| && m[k] ==> r[k] == d[k]
  {
    seq(|d|, k requires 0 <= k < |d| =>
      if !m[k] && ManhattanDistance(sinks[u], sinks[k]) < d[k] then ManhattanDistance(sinks[u], sinks[k]) else d[k])
  }

  /** The tree edges after the same relaxation: an improved sink now hangs off `u`. */
  function RelaxedParents(sinks: seq<Sink>, m: seq<bool>, d: seq<int>, parent: seq<int>, u: int): (r: seq<int>)
    requires |m| == |d| == |parent| == |sinks| && 0 <= u < |sinks|
    ensures |r| == |parent|
  {
    seq(|d|, k requires 0 <= k < |d| =>
      if !m[k] && ManhattanDistance(sinks[u], sinks[k]) < d[k] then u else parent[k])
  }

  /** While some sink is outside the tree, one of them has a finite distance. */
  lemma SelectionExists(sinks: seq<Sink>, m: seq<bool>, d: seq<int>, parent: seq<int>, rank: seq<int>, i: int, total: int)
    requires Reachable(sinks) && PrimInvariant(sinks, m, d, parent, rank, i, total) && i < |sinks|
    ensures exists k :: 0 <= k < |m| && !m[k] && d[k] < INT_MAX
  {
    if i == 0 {
      assert !m[0] && d[0] < INT_MAX;
    } else {
      SomeUnflagged(m);
      var k :| 0 <= k < |m| && !m[k];
      assert d[k] <= ManhattanDistance(sinks[0], sinks[k]) < INT_MAX;
    }
  }

  /** The first round adds sink 0. */
  lemma FirstRoundPicksRoot(sinks: seq<Sink>, m: seq<bool>, d: seq<int>, parent: seq<int>, rank: seq<int>, total: int, u: int)
    requires PrimInvariant(sinks, m, d, parent, rank, 0, total) && Nearest(m, d, u)
    ensures u == 0
  {
  }

  /** After a round every connected or reached sink still hangs off a connected sink by a tree edge. */
  lemma PrimStepEdges(sinks: seq<Sink>, m: seq<bool>, d: seq<int>, parent: seq<int>, rank: seq<int>, i: int, total: int, u: int)
    requires PrimInvariant(sinks, m, d, parent, rank, i, total)
    requires Nearest(m, d, u) && d[u] < INT_MAX && (i == 0 ==> u == 0)
    ensures var m' := m[u := true];
      var d', p', r' := Relaxed(sinks, m', d, u), RelaxedParents(sinks, m', d, parent, u), rank[u := i];
      forall k :: 0 <= k < |sinks| ==> Hangs(sinks, m', d', p', r', k)
  {
    var n := |sinks|;
    var m' := m[u := true];
    var d' := Relaxed(sinks, m', d, u);
    var p' := RelaxedParents(sinks, m', d, parent, u);
    var r' := rank[u := i];
    forall k | 0 <= k < n
      ensures Hangs(sinks, m', d', p', r', k)
    {
      if !m'[k] && ManhattanDistance(sinks[u], sinks[k]) < d[k] {
        assert p'[k] == u && d'[k] == ManhattanDistance(sinks[u], sinks[k]);
      } else {
        assert p'[k] == parent[k] && d'[k] == d[k];
        assert Hangs(sinks, m, d, parent, rank, k);
      }
    }
  }

  /** One round of Prim's loop keeps the invariant and adds the new sink's distance to the total. */
  lemma PrimStep(sinks: seq<Sink>, m: seq<bool>, d: seq<int>, parent: seq<int>, rank: seq<int>, i: int, total: int, u: int)
    requires PrimInvariant(sinks, m, d, parent, rank, i, total) && i < |sinks|
    requires Nearest(m, d, u) && d[u] < INT_MAX
    ensures var m' := m[u := true];
      PrimInvariant(sinks, m', Relaxed(sinks, m', d, u), RelaxedParents(sinks, m', d, parent, u), rank[u := i], i + 1, total + d[u])
  {
    var n := |sinks|;
    var m' := m[u := true];
    var d' := Relaxed(sinks, m', d, u);
    SumWhereFlag(m, d, u);
    SumWhereFrame(m', d, d');
    if i == 0 {
      FirstRoundPicksRoot(sinks, m, d, parent, rank, total, u);
    }
    PrimStepEdges(sinks, m, d, parent, rank, i, total, u);
    var p' := RelaxedParents(sinks, m', d, parent, u);
    var r' := rank[u := i];
    assert forall k :: 0 <= k < n && m'[k] ==> 0 <= r'[k] < i + 1;
    assert m'[0] && d'[0] == 0;
    assert forall k :: 0 <= k < n ==> d'[k] <= ManhattanDistance(sinks[0], sinks[k]) by {
      if i == 0 {
        assert forall k :: 0 <= k < n && !m'[k] ==> d'[k] <= ManhattanDistance(sinks[0], sinks[k]);
      }
    }
  }

  /** Before the first round nothing is connected and only sink 0 has a finite distance. */
  lemma PrimStart(sinks: seq<Sink>, m: seq<bool>, d: seq<int>, parent: seq<int>, rank: seq<int>)
    requires |sinks| > 0 && |m| == |d| == |parent| == |rank| == |sinks|
    requires forall k :: 0 <= k < |m| ==> !m[k] && d[k] == (if k == 0 then 0 else INT_MAX)
    ensures PrimInvariant(sinks, m, d, parent, rank, 0, 0)
  {
    NoneFlagged(m);
    SumWhereFrame(m, d, seq(|m|, _ => 0));
    ZeroSum(m, seq(|m|, _ => 0));
  }

  /** Once every sink is connected, the parents form a spanning tree and the distances are its edges. */
  lemma PrimDone(sinks: seq<Sink>, m: seq<bool>, d: seq<int>, parent: seq<int>, rank: seq<int>, total: int)
    requires PrimInvariant(sinks, m, d, parent, rank, |sinks|, total) && |sinks| > 0
    ensures SpanningTree(|sinks|, parent, rank)
    ensures d == Edges(sinks, parent)
    ensures total == Sum(d)
  {
    var n := |sinks|;
    SumWhereAll(m, d);
    forall k | 0 < k < n
      ensures 0 <= parent[k] < n && rank[parent[k]] < rank[k]
      ensures d[k] == ManhattanDistance(sinks[parent[k]], sinks[k])
    {
      assert m[k];
      assert Hangs(sinks, m, d, parent, rank, k);
    }
    var e := Edges(sinks, parent);
    assert d == e by {
      forall k | 0 <= k < n
        ensures d[k] == e[k]
      {
      }
    }
  }

  /** A spanning tree from sink 0 is no longer than the star from sink 0. */
  lemma TreeWithinStar(sinks: seq<Sink>, parent: seq<int>, rank: seq<int>, d: seq<int>)
    requires |sinks| > 0 && SpanningTree(|sinks|, parent, rank) && d == Edges(sinks, parent)
    requires forall k :: 0 <= k < |sinks| ==> d[k] <= ManhattanDistance(sinks[0], sinks[k])
    ensures Sum(d) <= Sum(Star(sinks))
  {
    SumMonotone(d, Star(sinks));
  }

  /**
   * `calculateWirelength`: Prim's algorithm over the complete graph of
   * Manhattan distances, started at sink 0. The result is the length of a
   * spanning tree of the sinks (returned as the ghost `parent`/`rank`), so it
   * is at most the star from sink 0; it is 0 for fewer than two sinks and
   * the one distance for two.
   */
  method CalculateWirelength(sinks: seq<Sink>) returns (total: int, ghost parent: seq<int>, ghost rank: seq<int>)
    requires Reachable(sinks)
    ensures SpanningTree(|sinks|, parent, rank)
    ensures total == Sum(Edges(sinks, parent))
    ensures |sinks| > 0 ==> total <= Sum(Star(sinks))
    ensures |sinks| <= 1 ==> total == 0
    ensures |sinks| == 2 ==> total == ManhattanDistance(sinks[0], sinks[1])
  {
    var n := |sinks|;
    if n == 0 {
      NoSinksNoEdges(sinks);
      return 0, [], [];
    }
    var inMST, minDist := PrimArrays(n);
    total, parent, rank := PrimRounds(sinks, inMST, minDist);
    PrimTotal(sinks, parent, rank, minDist[..], total);
  }

  lemma NoSinksNoEdges(sinks: seq<Sink>)
    requires |sinks| == 0
    ensures SpanningTree(0, [], []) && Sum(Edges(sinks, [])) == 0
  {
    assert Edges(sinks, []) == [];
  }

  ghost function Zeros(n: nat): (r: seq<int>)
    ensures |r| == n
  {
    seq(n, _ => 0)
  }

  /** The arrays `calculateWirelength` starts from: nothing connected, distance 0 for sink 0 only. */
  method PrimArrays(n: nat) returns (inMST: array<bool>, minDist: array<int>)
    ensures fresh(inMST) && fresh(minDist)
    ensures inMST.Length == minDist.Length == n
    ensures forall k :: 0 <= k < n ==> !inMST[k] && minDist[k] == (if k == 0 then 0 else INT_MAX)
  {
    inMST := new bool[n](_ => false);
    minDist := new int[n](_ => INT_MAX);
    if n > 0 {
      minDist[0] := 0;
    }
  }

  /** What the finished rounds give: a tree within the star, exact for up to two sinks. */
  lemma PrimTotal(sinks: seq<Sink>, parent: seq<int>, rank: seq<int>, d: seq<int>, total: int)
    requires |sinks| > 0 && SpanningTree(|sinks|, parent, rank) && d == Edges(sinks, parent) && total == Sum(d)
    requires forall k :: 0 <= k < |sinks| ==> d[k] <= ManhattanDistance(sinks[0], sinks[k])
    ensures total == Sum(Edges(sinks, parent))
    ensures total <= Sum(Star(sinks))
    ensures |sinks| <= 1 ==> total == 0
    ensures |sinks| == 2 ==> total == ManhattanDistance(sinks[0], sinks[1])
  {
    TreeWithinStar(sinks, parent, rank, d);
    if |sinks| <= 2 {
      SmallSpanningTree(sinks, parent, rank);
    }
  }

  /** The outer loop of `calculateWirelength`: one round per sink. */
  method PrimRounds(sinks: seq<Sink>, inMST: array<bool>, minDist: array<int>)
    returns (total: int, ghost parent: seq<int>, ghost rank: seq<int>)
    requires Reachable(sinks) && |sinks| > 0 && inMST.Length == minDist.Length == |sinks|
    requires forall k :: 0 <= k < |sinks| ==> !inMST[k] && minDist[k] == (if k == 0 then 0 else INT_MAX)
    modifies inMST, minDist
    ensures SpanningTree(|sinks|, parent, rank) && minDist[..] == Edges(sinks, parent) && total == Sum(minDist[..])
    ensures forall k :: 0 <= k < |sinks| ==> minDist[k] <= ManhattanDistance(sinks[0], sinks[k])
  {
    total, parent, rank := 0, Zeros(|sinks|), Zeros(|sinks|);
    PrimStart(sinks, inMST[..], minDist[..], parent, rank);
    for i := 0 to |sinks|
      invariant PrimInvariant(sinks, inMST[..], minDist[..], parent, rank, i, total)
    {
      total, parent, rank := PrimRound(sinks, inMST, minDist, parent, rank, i, total);
    }
    PrimDone(sinks, inMST[..], minDist[..], parent, rank, total);
  }

  /**
   * One round of the outer loop of `calculateWirelength`: connect the
   * nearest unconnected sink and relax the others through it.
   */
  method PrimRound(sinks: seq<Sink>, inMST: array<bool>, minDist: array<int>, ghost parent: seq<int>, ghost rank: seq<int>, ghost i: int, total: int)
    returns (total': int, ghost parent': seq<int>, ghost rank': seq<int>)
    requires Reachable(sinks) && PrimInvariant(sinks, inMST[..], minDist[..], parent, rank, i, total) && i < |sinks|
    modifies inMST, minDist
    ensures PrimInvariant(sinks, inMST[..], minDist[..], parent', rank', i + 1, total')
  {
    SelectionExists(sinks, inMST[..], minDist[..], parent, rank, i, total);
    var u, minDistance := SelectNearest(inMST, minDist);
    ghost var flags, before := inMST[..], minDist[..];
    PrimStep(sinks, flags, before, parent, rank, i, total, u);
    inMST[u] := true;
    assert inMST[..] == flags[u := true];
    rank' := rank[u := i];
    Relax(sinks, inMST, minDist, u);
    assert inMST[..] == flags[u := true] && minDist[..] == Relaxed(sinks, flags[u := true], before, u);
    parent' := RelaxedParents(sinks, inMST[..], before, parent, u);
    total' := total + minDistance;
  }

  /**
   * The selection scan: the first unflagged sink whose distance is below
   * the sentinel and least, or -1 with the sentinel when there is none.
   */
  method SelectNearest(inMST: array<bool>, minDist: array<int>) returns (u: int, minDistance: int)
    requires inMST.Length == minDist.Length
    ensures u == -1 ==> minDistance == INT_MAX && forall k :: 0 <= k < inMST.Length && !inMST[k] ==> minDist[k] >= INT_MAX
    ensures u != -1 ==> Nearest(inMST[..], minDist[..], u) && minDistance == minDist[u] < INT_MAX
  {
    minDistance := INT_MAX;
    u := -1;
    for j := 0 to inMST.Length
      invariant u == -1 ==> minDistance == INT_MAX && forall k :: 0 <= k < j && !inMST[k] ==> minDist[k] >= INT_MAX
      invariant u != -1 ==> 0 <= u < j && !inMST[u] && minDistance == minDist[u] < INT_MAX
      invariant forall k :: 0 <= k < j && !inMST[k] ==> minDistance <= minDist[k]
      invariant u != -1 ==> forall k :: 0 <= k < u && !inMST[k] ==> minDistance < minDist[k]
    {
      if !inMST[j] && minDist[j] < minDistance {
        minDistance := minDist[j];
        u := j;
      }
    }
  }

  /** The relaxation scan: lowers each unflagged sink's distance to its distance from `u`. */
  method Relax(sinks: seq<Sink>, inMST: array<bool>, minDist: array<int>, u: int)
    requires inMST.Length == minDist.Length == |sinks| && 0 <= u < |sinks|
    modifies minDist
    ensures minDist[..] == Relaxed(sinks, inMST[..], old(minDist[..]), u)
  {
    for v := 0 to minDist.Length
      invariant forall k :: 0 <= k < v ==> minDist[k] == Relaxed(sinks, inMST[..], old(minDist[..]), u)[k]
      invariant forall k :: v <= k < minDist.Length ==> minDist[k] == old(minDist[k])
    {
      if !inMST[v] {
        var dist := ManhattanDistance(sinks[u], sinks[v]);
        if dist < minDist[v] {
          minDist[v] := dist;
        }
      }
    }
  }

  lemma {:induction false} ZeroSum(m: seq<bool>, d: seq<int>)
    requires |m| == |d| && forall k :: 0 <= k < |d| ==> d[k] == 0
    ensures SumWhere(m, d) == 0
    decreases |m|
  {
    if |m| > 0 {
      ZeroSum(m[..|m| - 1], d[..|d| - 1]);
    }
  }
}
