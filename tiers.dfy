/**
 * The main flow of main.cpp, tier by tier: the sinks are grouped by their z
 * coordinate; each tier's abstract tree is built, placed and clustered; one
 * sub-tree per cluster is rebuilt as a zero-skew tree; and the root of each
 * of those becomes an MIV sink that the tier above takes with its own sinks.
 */
module Tiers {
  import opened Structures
  import opened Sorting
  import opened Utilities
  import opened TreeQueries
  import opened Timing
  import opened Merge
  import opened Clustering
  import opened ClusterGroups
  import opened Subtrees
  import opened Builder
  import opened Flow

  /** The balance bound of every `AbsTreeGen3D` call, and DBSCAN's bound on the cluster count. */
  const BOUND: int := 70
  /** DBSCAN's `minPts`. */
  const MIN_PTS: int := 4

  /** DBSCAN's radius: 8.5% of the layout width. */
  function Eps(cfg: Config): real
  {
    cfg.layoutWidth * 0.085
  }

  // ---------------------------------------------------------------------
  // Grouping the sinks by tier
  // ---------------------------------------------------------------------

  /** The sinks on tier `z`, in input order. */
  function OnTier(sinks: seq<Sink>, z: int): (r: seq<Sink>)
    ensures |r| <= |sinks|
    ensures forall s :: s in r <==> s in sinks && s.z == z
  {
    if |sinks| == 0 then []
    else (if sinks[0].z == z then [sinks[0]] else []) + OnTier(sinks[1..], z)
  }

  /** Filtering a list with one more sink at its end. */
  lemma {:induction false} OnTierSnoc(sinks: seq<Sink>, x: Sink, z: int)
    ensures OnTier(sinks + [x], z) == OnTier(sinks, z) + (if x.z == z then [x] else [])
    decreases |sinks|
  {
    var tail := if x.z == z then [x] else [];
    if |sinks| == 0 {
      assert [x][1..] == [] && [x][0] == x;
      assert OnTier([x], z) == tail + OnTier([], z);
    } else {
      var head := if sinks[0].z == z then [sinks[0]] else [];
      assert (sinks + [x])[1..] == sinks[1..] + [x] && (sinks + [x])[0] == sinks[0];
      OnTierSnoc(sinks[1..], x, z);
      calc {
        OnTier(sinks + [x], z);
        head + OnTier(sinks[1..] + [x], z);
        head + (OnTier(sinks[1..], z) + tail);
        (head + OnTier(sinks[1..], z)) + tail;
      }
    }
  }

  /** The map `sinksByZ` after pushing each sink onto the list of its tier. */
  function ByTier(sinks: seq<Sink>): map<int, seq<Sink>>
    decreases |sinks|
  {
    if |sinks| == 0 then map[]
    else
      var byZ := ByTier(sinks[..|sinks| - 1]);
      var last := sinks[|sinks| - 1];
      if last.z in byZ then byZ[last.z := byZ[last.z] + [last]] else byZ[last.z := [last]]
  }

  /**
   * The tiers are exactly the z coordinates that some sink has, and each
   * tier's list holds that tier's sinks in input order.
   */
  lemma {:induction false} ByTierSpec(sinks: seq<Sink>)
    ensures forall z :: z in ByTier(sinks) <==> OnTier(sinks, z) != []
    ensures forall z :: z in ByTier(sinks) ==> ByTier(sinks)[z] == OnTier(sinks, z)
    decreases |sinks|
  {
    if |sinks| > 0 {
      ByTierSpec(sinks[..|sinks| - 1]);
      forall z
        ensures z in ByTier(sinks) <==> OnTier(sinks, z) != []
        ensures z in ByTier(sinks) ==> ByTier(sinks)[z] == OnTier(sinks, z)
      {
        ByTierPoint(sinks, z);
      }
    }
  }

  /** One more sink at the end keeps tier `z`'s entry equal to the sinks on that tier. */
  lemma ByTierPoint(sinks: seq<Sink>, z: int)
    requires |sinks| > 0
    requires var init := sinks[..|sinks| - 1];
      (z in ByTier(init) <==> OnTier(init, z) != []) && (z in ByTier(init) ==> ByTier(init)[z] == OnTier(init, z))
    ensures z in ByTier(sinks) <==> OnTier(sinks, z) != []
    ensures z in ByTier(sinks) ==> ByTier(sinks)[z] == OnTier(sinks, z)
  {
    var init := sinks[..|sinks| - 1];
    var last := sinks[|sinks| - 1];
    assert sinks == init + [last];
    OnTierSnoc(init, last, z);
  }

  /** The loop of main.cpp that fills `sinksByZ`. */
  method GroupByTier(sinks: seq<Sink>) returns (sinksByZ: map<int, seq<Sink>>)
    ensures sinksByZ == ByTier(sinks)
  {
    sinksByZ := map[];
    for i := 0 to |sinks|
      invariant sinksByZ == ByTier(sinks[..i])
    {
      var prefix := sinks[..i + 1];
      assert prefix[..|prefix| - 1] == sinks[..i] && prefix[|prefix| - 1] == sinks[i];
      var sink := sinks[i];
      if sink.z in sinksByZ {
        sinksByZ := sinksByZ[sink.z := sinksByZ[sink.z] + [sink]];
      } else {
        sinksByZ := sinksByZ[sink.z := [sink]];
      }
    }
    assert sinks[..|sinks|] == sinks;
  }

  // ---------------------------------------------------------------------
  // Labels along a tier
  // ---------------------------------------------------------------------

  /** Every node the builder creates is noise. */
  lemma {:induction false} BuiltUnlabelled(S: seq<Sink>, B: int, next: int, cfg: Config)
    requires BuildSpec(S, B, next, cfg).Success?
    ensures NodeLabels(BuildSpec(S, B, next, cfg).value.0) == {NOISE}
    decreases |S|
  {
    var plan := PlanFor(S, B, cfg).value;
    if plan.Cut? {
      var left := BuildSpec(plan.top, plan.b1, next + 1, cfg);
      BuiltUnlabelled(plan.top, plan.b1, next + 1, cfg);
      BuiltUnlabelled(plan.bottom, plan.b2, left.value.1, cfg);
    }
  }

  /** Placing the leaves changes no label. */
  lemma {:induction false} LocatedLabels(t: Tree)
    ensures NodeLabels(Located(t)) == NodeLabels(t)
  {
    if t.Node? {
      LocatedLabels(t.left);
      LocatedLabels(t.right);
    }
  }

  /** A label that writing the cluster ids back puts on a node is one of the points' labels. */
  lemma {:induction false} AssignedLabels(t: Tree, points: seq<Point>)
    ensures forall l :: l in NodeLabels(AssignLeaves(t, points)) ==> l in NodeLabels(t) || l in Labels(points)
  {
    if IsLeaf(t) {
      LeafLabelFromPoints(t.sinks, 0, points, t.clusterId);
    } else if t.Node? {
      AssignedLabels(t.left, points);
      AssignedLabels(t.right, points);
    }
  }

  /**
   * Clustering an unlabelled tree leaves it carrying noise or cluster ids in
   * 0..bound (bound >= 0), the ids DBSCAN gives its points.
   */
  lemma ClusteredLabels(placed: Tree, eps: real, minPts: int, bound: int)
    requires 0 <= bound && placed.Node? && NodeLabels(placed) == {NOISE}
    ensures forall l :: l in NodeLabels(ClusterTree(placed, eps, minPts, bound).value) ==>
              l == NOISE || 0 <= l <= bound
  {
    var labelled := BoundedDbscan(SinkPoints(PreorderSinks(placed)), eps, minPts, bound);
    SinkLabelRange(PreorderSinks(placed), eps, minPts, bound);
    AssignedLabelsWithin(placed, labelled, bound);
  }

  /** Writing labels in 0..bound back onto an unlabelled tree leaves noise or those labels. */
  lemma AssignedLabelsWithin(placed: Tree, points: seq<Point>, bound: int)
    requires NodeLabels(placed) <= {NOISE}
    requires forall l :: l in Labels(points) ==> 0 <= l <= bound
    ensures forall l :: l in NodeLabels(AssignLeaves(placed, points)) ==> l == NOISE || 0 <= l <= bound
  {
    AssignedLabels(placed, points);
  }

  /** Noise aside, labels in 0..bound number at most bound + 1. */
  lemma ClusterCount(labels: set<int>, bound: int)
    requires 0 <= bound && forall l :: l in labels ==> l == NOISE || 0 <= l <= bound
    ensures |labels - {NOISE}| <= bound + 1
  {
    var ids := labels - {NOISE};
    var positive := ids - {0};
    assert positive <= Interval(bound);
    SubsetSize(positive, Interval(bound));
    RemoveOneSize(ids, 0);
  }

  /** Taking one value out of a set lowers its size by at most one. */
  lemma RemoveOneSize(s: set<int>, v: int)
    ensures |s| <= |s - {v}| + 1
  {
    if v in s {
      assert s == (s - {v}) + {v};
    } else {
      assert s - {v} == s;
    }
  }

  /** Storing capacitances changes no label. */
  lemma {:induction false} CapacitanceLabels(t: Tree)
    ensures NodeLabels(WithCapacitance(t)) == NodeLabels(t)
  {
    if t.Node? && !t.isBuffered {
      CapacitanceLabels(t.left);
      CapacitanceLabels(t.right);
    }
  }

  /** Storing delays changes no label. */
  lemma {:induction false} DelayLabels(t: Tree, accumulated: real, intrinsicDelay: real)
    ensures NodeLabels(WithDelay(t, accumulated, intrinsicDelay)) == NodeLabels(t)
  {
    if t.Node? {
      DelayLabels(t.left, accumulated + t.resistance, intrinsicDelay);
      DelayLabels(t.right, accumulated + t.resistance, intrinsicDelay);
    }
  }

  /** Merging keeps every node's label. */
  lemma {:induction false} MergeLabels(a: Tree, b: Tree)
    requires Pointwise(a, b, MergeOnly)
    ensures NodeLabels(b) == NodeLabels(a)
  {
    if a.Node? {
      MergeLabels(a.left, b.left);
      MergeLabels(a.right, b.right);
    }
  }

  // ---------------------------------------------------------------------
  // One cluster's MIV
  // ---------------------------------------------------------------------

  /**
   * The zero-skew tree of one cluster: the sub-tree's sinks rebuilt with the
   * same bound, placed, all labelled with the cluster's id, loaded, merged
   * bottom-up, typed "MIV" at the root, loaded again and timed from the TSV's
   * resistance. A null sub-tree root is a failure. The counter advances by
   * the ids the builder takes.
   */
  function MivTree(sub: Tree, bound: int, next: int, cfg: Config): (r: Result<(Tree, int)>)
    ensures r.Success? ==>
              sub.Node? && r.value.0.Node? && r.value.0.nodeType == "MIV" &&
              NodeLabels(r.value.0) == {sub.clusterId}
  {
    if sub.Nil? then Failure(NodeNotFound)
    else
      var built :- BuildSpec(PreorderSinks(sub), bound, next, cfg);
      var labelled := Relabel(Located(built.0), sub.clusterId);
      RelabelPointwise(Located(built.0), sub.clusterId);
      CapacitanceLabels(labelled);
      var merged :- ZeroSkewTreeSpec(WithCapacitance(labelled), cfg);
      ZeroSkewTreeFrame(WithCapacitance(labelled), cfg);
      MergeLabels(WithCapacitance(labelled), merged);
      var typed := merged.(nodeType := "MIV");
      assert NodeLabels(typed) == NodeLabels(merged);
      CapacitanceLabels(typed);
      DelayLabels(WithCapacitance(typed), cfg.tsvResistance, cfg.bufferIntrinsicDelay);
      Success((WithDelay(WithCapacitance(typed), cfg.tsvResistance, cfg.bufferIntrinsicDelay), built.1))
  }

  /** The sink recorded for a zero-skew tree's root on tier `z`. */
  function MivSink(t: Tree, z: int): Sink
    requires t.Node?
  {
    DefaultSink().(x := t.x, y := t.y, z := z, delay := t.elmoreDelay, clusterId := t.clusterId, sinkType := "MIV")
  }

  /** The MIV sink of one cluster sub-tree, carrying the cluster's id. */
  function ClusterMiv(sub: Tree, z: int, bound: int, next: int, cfg: Config): (r: Result<(Sink, int)>)
    ensures r.Success? ==>
              sub.Node? && r.value.0.clusterId == sub.clusterId &&
              r.value.0.z == z && r.value.0.sinkType == "MIV"
  {
    var miv :- MivTree(sub, bound, next, cfg);
    assert miv.0.clusterId in NodeLabels(miv.0);
    Success((MivSink(miv.0, z), miv.1))
  }

  /** One MIV sink per cluster sub-tree, in order, threading the counter. */
  function MivsOf(subs: seq<Tree>, z: int, bound: int, next: int, cfg: Config): Result<(seq<Sink>, int)>
    decreases |subs|
  {
    if |subs| == 0 then Success(([], next))
    else
      var before :- MivsOf(subs[..|subs| - 1], z, bound, next, cfg);
      var miv :- ClusterMiv(subs[|subs| - 1], z, bound, before.1, cfg);
      Success((before.0 + [miv.0], miv.1))
  }

  /** `mivs` holds one sink per sub-tree of `subs`, on tier `z`, typed "MIV", carrying its sub-tree's cluster id. */
  predicate MivsMatch(subs: seq<Tree>, mivs: seq<Sink>, z: int)
  {
    |mivs| == |subs| &&
    forall j :: 0 <= j < |subs| ==>
      subs[j].Node? && mivs[j].clusterId == subs[j].clusterId && mivs[j].z == z && mivs[j].sinkType == "MIV"
  }

  /** Matching the sub-trees but the last, and the last with one more sink, matches them all. */
  lemma MivsMatchSnoc(subs: seq<Tree>, mivs: seq<Sink>, miv: Sink, z: int)
    requires |subs| > 0 && MivsMatch(subs[..|subs| - 1], mivs, z)
    requires subs[|subs| - 1].Node? && miv.clusterId == subs[|subs| - 1].clusterId && miv.z == z && miv.sinkType == "MIV"
    ensures MivsMatch(subs, mivs + [miv], z)
  {
    var init := subs[..|subs| - 1];
    forall j | 0 <= j < |init|
      ensures subs[j] == init[j]
    {
    }
  }

  /** One MIV sink per sub-tree, on tier `z`, typed "MIV" and carrying its sub-tree's cluster id. */
  lemma {:induction false} MivsOfSinks(subs: seq<Tree>, z: int, bound: int, next: int, cfg: Config)
    requires MivsOf(subs, z, bound, next, cfg).Success?
    ensures MivsMatch(subs, MivsOf(subs, z, bound, next, cfg).value.0, z)
    decreases |subs|
  {
    if |subs| > 0 {
      var init := subs[..|subs| - 1];
      assert MivsOf(init, z, bound, next, cfg).Success?;
      MivsOfSinks(init, z, bound, next, cfg);
      MivsOfStep(subs, |subs| - 1, z, bound, next, cfg);
      assert subs[..|subs|] == subs;
      var before := MivsOf(init, z, bound, next, cfg).value;
      var last := subs[|subs| - 1];
      MivsMatchSnoc(subs, before.0, ClusterMiv(last, z, bound, before.1, cfg).value.0, z);
    }
  }

  /** The list for one more sub-tree: its sink appended, or its failure. */
  lemma MivsOfStep(subs: seq<Tree>, i: int, z: int, bound: int, next: int, cfg: Config)
    requires 0 <= i < |subs| && MivsOf(subs[..i], z, bound, next, cfg).Success?
    ensures var before := MivsOf(subs[..i], z, bound, next, cfg).value;
      var miv := ClusterMiv(subs[i], z, bound, before.1, cfg);
      MivsOf(subs[..i + 1], z, bound, next, cfg) ==
        if miv.Success? then Success((before.0 + [miv.value.0], miv.value.1)) else Failure(miv.error)
  {
    assert subs[..i + 1][..i] == subs[..i];
  }

  /** A failure on a prefix of the sub-trees is the failure of the whole list. */
  lemma {:induction false} MivsOfFailure(subs: seq<Tree>, i: int, z: int, bound: int, next: int, cfg: Config)
    requires 0 <= i <= |subs| && MivsOf(subs[..i], z, bound, next, cfg).Failure?
    ensures MivsOf(subs, z, bound, next, cfg) == Failure(MivsOf(subs[..i], z, bound, next, cfg).error)
    decreases |subs|
  {
    if i == |subs| {
      assert subs[..i] == subs;
    } else {
      var init := subs[..|subs| - 1];
      assert init[..i] == subs[..i];
      MivsOfFailure(init, i, z, bound, next, cfg);
    }
  }

  /**
   * `createClusterSubtrees` on a clustered tier, then one MIV sink per
   * cluster sub-tree, the counter threaded through both.
   */
  function ClusterMivs(clustered: Tree, z: int, bound: int, next: int, cfg: Config): Result<(seq<Sink>, int)>
  {
    MivsOf(ClusterSubtrees(clustered, next), z, bound, SubtreesNext(clustered, next), cfg)
  }

  /** The counter after `createClusterSubtrees(t)` took its ids from `next` on. */
  function SubtreesNext(t: Tree, next: int): int
  {
    next + ClusterSubtreeIds(t)
  }

  /**
   * On a tree whose labels are noise or in 0..bound, the clusters yield at
   * most bound + 1 MIV sinks (one per cluster, the cluster of label 0
   * included), each on the tier, typed "MIV", labelled with its cluster's id,
   * and in strictly ascending order of that id.
   */
  lemma ClusterMivsBounded(clustered: Tree, z: int, bound: int, next: int, cfg: Config)
    requires 0 <= bound && forall l :: l in NodeLabels(clustered) ==> l == NOISE || 0 <= l <= bound
    requires ClusterMivs(clustered, z, bound, next, cfg).Success?
    ensures var mivs := ClusterMivs(clustered, z, bound, next, cfg).value.0;
      |mivs| <= bound + 1 &&
      (forall j :: 0 <= j < |mivs| ==>
        mivs[j].z == z && mivs[j].sinkType == "MIV" && 0 <= mivs[j].clusterId <= bound) &&
      (forall i, j :: 0 <= i < j < |mivs| ==> mivs[i].clusterId < mivs[j].clusterId)
  {
    var subs := ClusterSubtrees(clustered, next);
    var labels := SubtreeLabels(clustered);
    ClusterSubtreesLabels(clustered, next);
    SubtreeLabelsOrder(clustered);
    ClusterCount(NodeLabels(clustered), bound);
    MivsOfSinks(subs, z, bound, SubtreesNext(clustered, next), cfg);
    forall j | 0 <= j < |labels|
      ensures 0 <= labels[j] <= bound
    {
      assert labels[j] in labels;
    }
    MatchedMivsBounded(subs, ClusterMivs(clustered, z, bound, next, cfg).value.0, labels, z, bound);
  }

  /** Sinks matching sub-trees labelled by strictly increasing ids in 0..bound inherit those ids. */
  lemma MatchedMivsBounded(subs: seq<Tree>, mivs: seq<Sink>, labels: seq<int>, z: int, bound: int)
    requires MivsMatch(subs, mivs, z) && |subs| == |labels| <= bound + 1 && StrictlyIncreasing(labels)
    requires forall j :: 0 <= j < |labels| ==> subs[j].clusterId == labels[j] && 0 <= labels[j] <= bound
    ensures |mivs| <= bound + 1
    ensures forall j :: 0 <= j < |mivs| ==> mivs[j].z == z && mivs[j].sinkType == "MIV" && 0 <= mivs[j].clusterId <= bound
    ensures forall i, j :: 0 <= i < j < |mivs| ==> mivs[i].clusterId < mivs[j].clusterId
  {
  }

  /**
   * One tier: its abstract tree built from `group` (the root then set on
   * tier `z`), placed, clustered, one sub-tree per cluster, and one MIV sink
   * per sub-tree, with the counter threaded through all of them.
   */
  function TierSpec(z: int, group: seq<Sink>, bound: int, next: int, cfg: Config): Result<(seq<Sink>, int)>
  {
    var built :- BuildSpec(group, bound, next, cfg);
    var clustered :- ClusterTree(Located(built.0.(z := z)), Eps(cfg), MIN_PTS, bound);
    ClusterMivs(clustered, z, bound, built.1, cfg)
  }

  /**
   * A tier yields at most bound + 1 MIV sinks, each on the tier, typed
   * "MIV", labelled with a cluster id in 0..bound, in strictly ascending
   * order of that id.
   */
  lemma TierMivs(z: int, group: seq<Sink>, bound: int, next: int, cfg: Config)
    requires 0 <= bound && TierSpec(z, group, bound, next, cfg).Success?
    ensures var mivs := TierSpec(z, group, bound, next, cfg).value.0;
      |mivs| <= bound + 1 &&
      (forall j :: 0 <= j < |mivs| ==>
        mivs[j].z == z && mivs[j].sinkType == "MIV" && 0 <= mivs[j].clusterId <= bound) &&
      (forall i, j :: 0 <= i < j < |mivs| ==> mivs[i].clusterId < mivs[j].clusterId)
  {
    var built := BuildSpec(group, bound, next, cfg).value;
    BuiltUnlabelled(group, bound, next, cfg);
    var raised := built.0.(z := z);
    assert NodeLabels(raised) == NodeLabels(built.0);
    LocatedLabels(raised);
    ClusteredLabels(Located(raised), Eps(cfg), MIN_PTS, bound);
    var clustered := ClusterTree(Located(raised), Eps(cfg), MIN_PTS, bound).value;
    ClusterMivsBounded(clustered, z, bound, built.1, cfg);
  }

  // ---------------------------------------------------------------------
  // The whole flow
  // ---------------------------------------------------------------------

  /** The sinks tier `z` is built from: its own, then the MIV sinks of tier z - 1 when z > 1. */
  function TierGroup(sinksByZ: map<int, seq<Sink>>, mivs: map<int, seq<Sink>>, z: int): seq<Sink>
    requires z in sinksByZ
  {
    sinksByZ[z] + if z > 1 && z - 1 in mivs then mivs[z - 1] else []
  }

  /** `tierMIVSinks[z].push_back` for each sink of `tier`: the entry exists once something is pushed. */
  function Record(mivs: map<int, seq<Sink>>, z: int, tier: seq<Sink>): map<int, seq<Sink>>
  {
    if |tier| == 0 then mivs
    else mivs[z := (if z in mivs then mivs[z] else []) + tier]
  }

  /** Recording one sink more is one more push onto tier `z`'s list. */
  lemma RecordPush(mivs: map<int, seq<Sink>>, z: int, tier: seq<Sink>, x: Sink)
    ensures var before := Record(mivs, z, tier);
      Record(mivs, z, tier + [x]) == before[z := (if z in before then before[z] else []) + [x]]
  {
    var base := if z in mivs then mivs[z] else [];
    if |tier| > 0 {
      assert base + (tier + [x]) == (base + tier) + [x];
    } else {
      assert tier + [x] == [x];
    }
  }

  /** One pass of the loop over the tiers: tier `z` processed, its MIV sinks recorded. */
  function FlowStep(sinksByZ: map<int, seq<Sink>>, mivs: map<int, seq<Sink>>, z: int, bound: int, next: int, cfg: Config)
      : Result<(map<int, seq<Sink>>, int)>
    requires z in sinksByZ
  {
    var tier :- TierSpec(z, TierGroup(sinksByZ, mivs, z), bound, next, cfg);
    Success((Record(mivs, z, tier.0), tier.1))
  }

  /** The tiers of `tiers` processed in order, the map of MIV sinks threaded through. */
  function FlowSpec(sinksByZ: map<int, seq<Sink>>, tiers: seq<int>, bound: int, next: int, cfg: Config)
      : Result<(map<int, seq<Sink>>, int)>
    requires forall j :: 0 <= j < |tiers| ==> tiers[j] in sinksByZ
    decreases |tiers|
  {
    if |tiers| == 0 then Success((map[], next))
    else
      var before :- FlowSpec(sinksByZ, tiers[..|tiers| - 1], bound, next, cfg);
      FlowStep(sinksByZ, before.0, tiers[|tiers| - 1], bound, before.1, cfg)
  }

  /** main.cpp's flow: the tiers of the sinks in ascending order of z. */
  function FlowOfSinks(sinks: seq<Sink>, bound: int, next: int, cfg: Config): Result<(map<int, seq<Sink>>, int)>
  {
    var sinksByZ := ByTier(sinks);
    FlowSpec(sinksByZ, Ascending(sinksByZ.Keys), bound, next, cfg)
  }

  /** The flow over one more tier is one more step after the flow so far. */
  lemma FlowSpecStep(sinksByZ: map<int, seq<Sink>>, tiers: seq<int>, i: int, bound: int, next: int, cfg: Config)
    requires forall j :: 0 <= j < |tiers| ==> tiers[j] in sinksByZ
    requires 0 <= i < |tiers| && FlowSpec(sinksByZ, tiers[..i], bound, next, cfg).Success?
    ensures var before := FlowSpec(sinksByZ, tiers[..i], bound, next, cfg).value;
      FlowSpec(sinksByZ, tiers[..i + 1], bound, next, cfg) == FlowStep(sinksByZ, before.0, tiers[i], bound, before.1, cfg)
  {
    assert tiers[..i + 1][..i] == tiers[..i];
  }

  /** A failure on a prefix of the tiers is the failure of the whole flow. */
  lemma {:induction false} FlowSpecFailure(sinksByZ: map<int, seq<Sink>>, tiers: seq<int>, i: int, bound: int, next: int, cfg: Config)
    requires forall j :: 0 <= j < |tiers| ==> tiers[j] in sinksByZ
    requires 0 <= i <= |tiers| && FlowSpec(sinksByZ, tiers[..i], bound, next, cfg).Failure?
    ensures FlowSpec(sinksByZ, tiers, bound, next, cfg) == Failure(FlowSpec(sinksByZ, tiers[..i], bound, next, cfg).error)
    decreases |tiers|
  {
    if i == |tiers| {
      assert tiers[..i] == tiers;
    } else {
      var init := tiers[..|tiers| - 1];
      assert init[..i] == tiers[..i];
      FlowSpecFailure(sinksByZ, init, i, bound, next, cfg);
    }
  }

  /**
   * Each entry of a map of MIV sinks holds between 1 and bound + 1 sinks,
   * each on the entry's tier, typed "MIV" and labelled with a cluster id in
   * 0..bound.
   */
  predicate MivsWithin(mivs: map<int, seq<Sink>>, bound: int)
  {
    (forall z :: z in mivs ==> 0 < |mivs[z]| <= bound + 1) &&
    (forall z, j :: z in mivs && 0 <= j < |mivs[z]| ==>
      mivs[z][j].z == z && mivs[z][j].sinkType == "MIV" && 0 <= mivs[z][j].clusterId <= bound)
  }

  /** A tier not yet recorded adds at most its own entry, and keeps the map within bounds. */
  lemma FlowStepMivs(sinksByZ: map<int, seq<Sink>>, mivs: map<int, seq<Sink>>, z: int, bound: int, next: int, cfg: Config)
    requires 0 <= bound && z in sinksByZ && z !in mivs && MivsWithin(mivs, bound)
    requires FlowStep(sinksByZ, mivs, z, bound, next, cfg).Success?
    ensures MivsWithin(FlowStep(sinksByZ, mivs, z, bound, next, cfg).value.0, bound)
    ensures FlowStep(sinksByZ, mivs, z, bound, next, cfg).value.0.Keys <= mivs.Keys + {z}
  {
    var group := TierGroup(sinksByZ, mivs, z);
    TierMivs(z, group, bound, next, cfg);
    var tier := TierSpec(z, group, bound, next, cfg).value.0;
    assert FlowStep(sinksByZ, mivs, z, bound, next, cfg).value.0 == Record(mivs, z, tier);
    RecordWithin(mivs, z, tier, bound);
  }

  /** Recording a new tier's MIV sinks, each on the tier and within bounds, keeps the map within bounds. */
  lemma RecordWithin(mivs: map<int, seq<Sink>>, z: int, tier: seq<Sink>, bound: int)
    requires z !in mivs && MivsWithin(mivs, bound) && |tier| <= bound + 1
    requires forall j :: 0 <= j < |tier| ==> tier[j].z == z && tier[j].sinkType == "MIV" && 0 <= tier[j].clusterId <= bound
    ensures MivsWithin(Record(mivs, z, tier), bound) && Record(mivs, z, tier).Keys <= mivs.Keys + {z}
  {
    if |tier| > 0 {
      assert Record(mivs, z, tier)[z] == tier;
    }
  }

  /**
   * Over tiers in ascending order, the map of MIV sinks has an entry only for
   * a tier that produced some, with at most bound + 1 of them, each on that
   * tier, typed "MIV" and labelled with a cluster id in 0..bound.
   */
  lemma {:induction false} FlowMivs(sinksByZ: map<int, seq<Sink>>, tiers: seq<int>, bound: int, next: int, cfg: Config)
    requires forall j :: 0 <= j < |tiers| ==> tiers[j] in sinksByZ
    requires 0 <= bound && StrictlyIncreasing(tiers) && FlowSpec(sinksByZ, tiers, bound, next, cfg).Success?
    ensures MivsWithin(FlowSpec(sinksByZ, tiers, bound, next, cfg).value.0, bound)
    ensures forall z :: z in FlowSpec(sinksByZ, tiers, bound, next, cfg).value.0 ==> z in tiers
    decreases |tiers|
  {
    if |tiers| > 0 {
      var init := tiers[..|tiers| - 1];
      var z := tiers[|tiers| - 1];
      FlowMivs(sinksByZ, init, bound, next, cfg);
      var before := FlowSpec(sinksByZ, init, bound, next, cfg).value;
      assert z !in before.0;
      FlowStepMivs(sinksByZ, before.0, z, bound, before.1, cfg);
      forall y | y in before.0
        ensures y in tiers
      {
        var k :| 0 <= k < |init| && init[k] == y;
        assert tiers[k] == y;
      }
    }
  }

  /** The flow of a list of sinks records MIV sinks only for tiers that some sink lies on, each entry within bounds. */
  lemma FlowOfSinksMivs(sinks: seq<Sink>, bound: int, next: int, cfg: Config)
    requires 0 <= bound && FlowOfSinks(sinks, bound, next, cfg).Success?
    ensures MivsWithin(FlowOfSinks(sinks, bound, next, cfg).value.0, bound)
    ensures forall z :: z in FlowOfSinks(sinks, bound, next, cfg).value.0 ==> OnTier(sinks, z) != []
  {
    var sinksByZ := ByTier(sinks);
    ByTierSpec(sinks);
    FlowMivs(sinksByZ, Ascending(sinksByZ.Keys), bound, next, cfg);
  }

  // ---------------------------------------------------------------------
  // The methods
  // ---------------------------------------------------------------------

  /** The body of main.cpp's loop over one cluster's sub-tree root. */
  method MivOfSubtree(s: Synthesizer, subtreeRoot: Tree, z: int, bound: int, cfg: Config) returns (r: Result<Sink>)
    modifies s
    ensures Threaded(r, s.nodeID, ClusterMiv(subtreeRoot, z, bound, old(s.nodeID), cfg))
  {
    if subtreeRoot.Nil? {
      return Failure(NodeNotFound);
    }
    var subtreeSinks := TreeToSinkVector(subtreeRoot);
    var abstractSubtree := s.AbsTreeGen3D(subtreeSinks, bound, cfg);
    if abstractSubtree.Failure? {
      return Failure(abstractSubtree.error);
    }
    var placed := AssignPhysicalLocations(abstractSubtree.value);
    var labelled := AssignClusterIdToTree(placed, subtreeRoot.clusterId);
    var capacitance, loaded := DepthFirstCapacitance(labelled);
    var zeroSkewSubtree := ZeroSkewTree(loaded, cfg);
    if zeroSkewSubtree.Failure? {
      return Failure(zeroSkewSubtree.error);
    }
    ZeroSkewTreeFrame(loaded, cfg);
    var typed := zeroSkewSubtree.value.(nodeType := "MIV");
    var rootCapacitance, reloaded := DepthFirstCapacitance(typed);
    var timed := DepthFirstDelay(reloaded, cfg.tsvResistance, cfg);
    var rootSink := DefaultSink();
    rootSink := rootSink.(x := timed.x, y := timed.y, z := z, delay := timed.elmoreDelay,
                          clusterId := timed.clusterId, sinkType := "MIV");
    r := Success(rootSink);
  }

  /** main.cpp's loop over the cluster sub-tree roots of one tier. */
  method MivsOfSubtrees(s: Synthesizer, clusterRoots: seq<Tree>, z: int, bound: int, cfg: Config) returns (r: Result<seq<Sink>>)
    modifies s
    ensures Threaded(r, s.nodeID, MivsOf(clusterRoots, z, bound, old(s.nodeID), cfg))
  {
    ghost var start := s.nodeID;
    var mivs: seq<Sink> := [];
    for i := 0 to |clusterRoots|
      invariant MivsOf(clusterRoots[..i], z, bound, start, cfg) == Success((mivs, s.nodeID))
    {
      MivsOfStep(clusterRoots, i, z, bound, start, cfg);
      var miv := MivOfSubtree(s, clusterRoots[i], z, bound, cfg);
      if miv.Failure? {
        MivsOfFailure(clusterRoots, i + 1, z, bound, start, cfg);
        return Failure(miv.error);
      }
      mivs := mivs + [miv.value];
    }
    assert clusterRoots[..|clusterRoots|] == clusterRoots;
    r := Success(mivs);
  }

  /** `createClusterSubtrees` on a clustered tier, then the loop over the sub-tree roots. */
  method MivsOfClusters(s: Synthesizer, root: Tree, z: int, bound: int, cfg: Config) returns (r: Result<seq<Sink>>)
    modifies s
    ensures Threaded(r, s.nodeID, ClusterMivs(root, z, bound, old(s.nodeID), cfg))
  {
    ghost var start := s.nodeID;
    var clusterRoots := s.CreateClusterSubtrees(root);
    assert s.nodeID == SubtreesNext(root, start);
    r := MivsOfSubtrees(s, clusterRoots, z, bound, cfg);
  }

  /** The body of main.cpp's loop over the tiers, for tier `z` and its group of sinks. */
  method ProcessTier(s: Synthesizer, z: int, sinksGroup: seq<Sink>, bound: int, cfg: Config) returns (r: Result<seq<Sink>>)
    modifies s
    ensures Threaded(r, s.nodeID, TierSpec(z, sinksGroup, bound, old(s.nodeID), cfg))
  {
    var root := s.AbsTreeGen3D(sinksGroup, bound, cfg);
    if root.Failure? {
      return Failure(root.error);
    }
    var placed := AssignPhysicalLocations(root.value.(z := z));
    var clustered := RunDbscanAndAssignClusters(placed, Eps(cfg), MIN_PTS, bound);
    if clustered.Failure? {
      return Failure(clustered.error);
    }
    r := MivsOfClusters(s, clustered.value, z, bound, cfg);
  }

  /**
   * One pass of main.cpp's loop over the tiers: the tier's own sinks, with
   * the MIV sinks of tier z - 1 appended when z > 1, processed, and its MIV
   * sinks pushed onto `tierMIVSinks[z]`.
   */
  method RunTier(s: Synthesizer, sinksByZ: map<int, seq<Sink>>, tierMivSinks: map<int, seq<Sink>>, z: int, bound: int, cfg: Config)
      returns (r: Result<map<int, seq<Sink>>>)
    requires z in sinksByZ
    modifies s
    ensures Threaded(r, s.nodeID, FlowStep(sinksByZ, tierMivSinks, z, bound, old(s.nodeID), cfg))
  {
    var sinksGroup := GroupOfTier(sinksByZ, tierMivSinks, z);
    var mivs := ProcessTier(s, z, sinksGroup, bound, cfg);
    if mivs.Failure? {
      return Failure(mivs.error);
    }
    var recorded := PushMivs(tierMivSinks, z, mivs.value);
    r := Success(recorded);
  }

  /** The group of tier `z`: a copy of its sinks, with the MIV sinks of tier z - 1 appended when z > 1. */
  method GroupOfTier(sinksByZ: map<int, seq<Sink>>, tierMivSinks: map<int, seq<Sink>>, z: int) returns (sinksGroup: seq<Sink>)
    requires z in sinksByZ
    ensures sinksGroup == TierGroup(sinksByZ, tierMivSinks, z)
  {
    sinksGroup := sinksByZ[z];
    if z > 1 && z - 1 in tierMivSinks {
      sinksGroup := sinksGroup + tierMivSinks[z - 1];
    }
  }

  /** `tierMIVSinks[z].push_back(rootSink)` for each MIV sink of the tier, in order. */
  method PushMivs(tierMivSinks: map<int, seq<Sink>>, z: int, mivs: seq<Sink>) returns (recorded: map<int, seq<Sink>>)
    ensures recorded == Record(tierMivSinks, z, mivs)
  {
    recorded := tierMivSinks;
    for i := 0 to |mivs|
      invariant recorded == Record(tierMivSinks, z, mivs[..i])
    {
      RecordPush(tierMivSinks, z, mivs[..i], mivs[i]);
      assert mivs[..i + 1] == mivs[..i] + [mivs[i]];
      var pushed := if z in recorded then recorded[z] else [];
      recorded := recorded[z := pushed + [mivs[i]]];
    }
    assert mivs[..|mivs|] == mivs;
  }

  /** main.cpp's `main` without its I/O: the sinks grouped by tier, then every tier in ascending z. */
  method RunFlow(s: Synthesizer, sinks: seq<Sink>, cfg: Config) returns (r: Result<map<int, seq<Sink>>>)
    modifies s
    ensures Threaded(r, s.nodeID, FlowOfSinks(sinks, BOUND, old(s.nodeID), cfg))
  {
    var bound := BOUND;
    var sinksByZ := GroupByTier(sinks);
    r := RunTiers(s, sinksByZ, Ascending(sinksByZ.Keys), bound, cfg);
  }

  /** main.cpp's loop over the tiers of `sinksByZ`, in the order given. */
  method RunTiers(s: Synthesizer, sinksByZ: map<int, seq<Sink>>, tiers: seq<int>, bound: int, cfg: Config)
      returns (r: Result<map<int, seq<Sink>>>)
    requires forall j :: 0 <= j < |tiers| ==> tiers[j] in sinksByZ
    modifies s
    ensures Threaded(r, s.nodeID, FlowSpec(sinksByZ, tiers, bound, old(s.nodeID), cfg))
  {
    ghost var start := s.nodeID;
    var tierMivSinks: map<int, seq<Sink>> := map[];
    for i := 0 to |tiers|
      invariant FlowSpec(sinksByZ, tiers[..i], bound, start, cfg) == Success((tierMivSinks, s.nodeID))
    {
      FlowSpecStep(sinksByZ, tiers, i, bound, start, cfg);
      var next := RunTier(s, sinksByZ, tierMivSinks, tiers[i], bound, cfg);
      if next.Failure? {
        FlowSpecFailure(sinksByZ, tiers, i + 1, bound, start, cfg);
        return Failure(next.error);
      }
      tierMivSinks := next.value;
    }
    assert tiers[..|tiers|] == tiers;
    r := Success(tierMivSinks);
  }
}
