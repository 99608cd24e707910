# A verified model of a 3D clock-tree synthesis engine

This project models, in Dafny, the engine of a clock-tree synthesiser for
three-dimensional (multi-tier) integrated circuits. The engine places
clock sinks on an integer grid across several dies ("tiers", the `z`
coordinate) and builds a zero-skew clock tree over them. Its parts:

- **Topology.** `AbsTreeGen3D` splits a sink list recursively into a binary
  tree. Each split is a die-boundary cut on `z` (`Zcut`) or a median cut on
  `x` or `y`. Before measuring, near-identical sinks are jittered apart
  (`adjustNearlyIdenticalCoords`). Every node takes the next id from a
  global counter before its children are built.
- **RC timing.** `depthFirstCapacitance` loads the tree bottom-up.
  `depthFirstDelay` stores each node's Elmore delay top-down. The unused
  bottom-up variant from main.cpp is modelled too.
- **Bounded DBSCAN.** Clustering over the leaves' sinks keeps only the
  `bound` largest clusters and renumbers them densely from 1. The labels
  are then written back onto the leaves. Around it sit the older unbounded
  clustering pass, the grouping of nodes by label, cluster midpoints, and
  the balanced cluster sub-trees.
- **Zero-skew merge and planar embedding.** For each internal node,
  `ZeroSkewMerge` computes the tapping point that equalises the two
  children's Elmore delays. Out of range, it extends the wire or inserts a
  buffer. It places the parent on a free grid cell near the rounded centre
  of the candidate points from the linear planar DME recursion.
  `zeroSkewTree` applies it post-order.
- **Wirelength.** Prim's minimum spanning tree over the sinks, and the
  total edge length of a built tree.
- **The per-tier flow of main.cpp.** Sinks are grouped by tier. Tiers are
  processed in ascending `z`, with the MIV sinks of tier `z - 1` appended to
  tier `z`'s sinks when `z > 1`. Each tier is built, placed and clustered.
  Every cluster sub-tree is rebuilt, merged with zero skew and timed from
  the TSV resistance. Its root becomes one "MIV" sink recorded for the tier.

Modelling choices:

- **Header and main.cpp variants.** The header files (tree.hpp, dme.hpp,
  utilities.hpp, clustering.hpp, clusters.hpp) are the primary behaviour.
  Where the compiled main.cpp differs, a `Config.variant` of `Monolith`
  selects main.cpp's behaviour. The differences are:
  - no jitter in `AbsTreeGen3D`;
  - segment delays taken as parent minus child;
  - the near tap always given to child 1;
  - strict layout bounds;
  - the buffer branch keeping the capacitance.
- **Trees as values.** A tree is a datatype whose `Nil` stands for a null
  child. Passes that write node fields are functions returning the updated
  tree, each with a method that performs the walk and is proved against
  that function.
- **The id counter is state.** The global `nodeID` is the field of a
  `Flow.Synthesizer` object. The builder and `createClusterSubtree(s)` are
  its methods, proved against specification functions that thread the
  counter.
- **Globals and failures.**
  - The physical units and the clock source are read-only `Config` fields.
  - Doubles are reals. Comparisons against Euclidean distances are made on
    squared distances.
  - The square root in the merge's `l'` is a `Config` field. The lemmas that
    need it assume it behaves as the square root (`IsSqrt`).
  - Undefined behaviour is an explicit failure `Result`: `front()` of an
    empty vector, the minimum of an empty list, a null dereference, a
    division by zero, a NaN.
- **`extractSinks`.** tree.hpp:37-44 and clusters.hpp:217-224 hold the
  same pre-order walk as `collectSinks`, and are modelled by the same
  function (`Utilities.PreorderSinks`).
- **`std::sort` as a stable insertion sort.** For the medians and the
  cluster ranking, equal keys mean equal elements, so the result is the
  one `std::sort` gives. The last fallback cut of the planar DME sorts
  points by `x + y`, where `std::sort` leaves the order of ties
  unspecified and the model keeps input order.

## Model

| member | source | states |
|---|---|---|
| Structures.NewSink | main.cpp:57-69 | the defaulted sink constructor keeps the given position and input capacitance, colours the sink "Gray" and leaves it unclustered (cluster -1), with zero load and delay |
| Structures.DefaultSink | structures.hpp:46-48 | `Sink()` sits at (0, 0, 0) with input capacitance 0 and colour "Gray" |
| Structures.At | structures.hpp:36-39 | a point written as `{x, y}` carries the given coordinates and label 0, "unvisited" |
| Structures.NewNode | structures.hpp:67-75 | a new node has null children, the (-1, -1, -1) position, capacitance and resistance 0, not buffered, type "undefined", cluster -1, and the given sinks, colour and id |
| Structures.NewNodeUnlocated | structures.hpp:67-75 | a new node is childless and `hasPhysicalLocation` treats it as unresolved |
| Utilities.ManhattanDistance | utilities.hpp:17-19 | \|dx\| + \|dy\| is non-negative and zero exactly when x and y agree |
| Utilities.ManhattanMetric | utilities.hpp:17-19 | the distance is symmetric and obeys the triangle inequality |
| Utilities.SquaredComparisons | utilities.hpp:20-22 | comparing `euclideanDistance` with a bound agrees with comparing the squared distance with the squared bound, for both `<` and `<=` |
| Utilities.CloserSymmetric | utilities.hpp:20-22 | the Euclidean comparison does not depend on the order of the two points |
| Utilities.CollectSinks | utilities.hpp:24-35 | appends to the out-vector every node's sink list in pre-order (node, left, right), internal nodes included |
| Utilities.TreeToSinkVector | utilities.hpp:36-40 | the vector is exactly the pre-order concatenation of all sink lists |
| Utilities.PreorderSinksOfLeaf | utilities.hpp:24-35 | a childless node contributes exactly its own sink list |
| Utilities.Coords | utilities.hpp:62-67 | the copied coordinate list has one entry per sink, in order |
| Utilities.ExtremesAttained | utilities.hpp:97-178 | the minimum (maximum) is the coordinate of some sink and is below (above) every sink's coordinate |
| Utilities.GetMin | utilities.hpp:97-108 | throws exactly on an empty list; otherwise returns the least coordinate |
| Utilities.GetMax | utilities.hpp:111-122 | throws exactly on an empty list; otherwise returns the greatest coordinate |
| Utilities.CalculateMedian | utilities.hpp:62-94 | copying, sorting and picking the middle (or the truncated mean of the two middles) gives the median of the sorted coordinates |
| Utilities.CopyCoords | utilities.hpp:63-67 | the loop copies every sink's coordinate in order |
| Utilities.MiddleBetween | utilities.hpp:68-76 | the middle of a sorted rearrangement stays within any bounds of the list, and for an odd count it is one of the list's values |
| Utilities.MedianBounds | utilities.hpp:62-94 | the median lies between the list's minimum and maximum, and for an odd count it is one of the coordinates |
| Utilities.FilterPoints | utilities.hpp:42-57 | the nested loop keeps exactly the points that `Filtered` keeps |
| Utilities.FilteredIsSubsequence | utilities.hpp:42-57 | the output is an order-preserving subsequence of the input |
| Utilities.FilteredKeepsFirst | utilities.hpp:44-54 | the first input point is always kept, in first position |
| Utilities.FilteredSeparated | utilities.hpp:44-54 | kept points are pairwise at least `minDistance` apart |
| Utilities.FilteredDropped | utilities.hpp:44-54 | every input point is either kept or closer than `minDistance` to a point kept before it |
| Utilities.RoundCoordinates | utilities.hpp:205-212 | ceils x and floors y when frac(x) >= 0.5, otherwise floors x and ceils y; the result is integral |
| Utilities.RoundCoordinatesNear | utilities.hpp:205-212 | rounding moves each coordinate by less than one and is the identity on integral points |
| Utilities.UsedIffLeafAt | utilities.hpp:214-227 | a cell is used exactly when some childless node sits on it; internal nodes are ignored |
| Utilities.FindNearestFreePoint | utilities.hpp:228-247 | returns the original when free, else the first free cell of the ring scan, else the original |
| Utilities.ScanRings | utilities.hpp:235-245 | the loop over d = 1..maxDistance returns the outcome of the scan from ring 1 |
| Utilities.ScanRing | utilities.hpp:237-244 | one ring, column by column: the first free candidate of the ring, or the scan moves on to the next ring |
| Utilities.ScanColumn | utilities.hpp:238-243 | one column, row by row: the first free candidate of the column, or the scan moves on to the next column |
| Utilities.CandidateCell | utilities.hpp:239-240 | the candidate at offset (dx, dy) from the original point, and whether no leaf sits on its truncated cell |
| Utilities.FreeAtOrigin | utilities.hpp:230-232 | the zero offset tests the original's own (truncated) cell |
| Utilities.ScanFindsFirstFree | utilities.hpp:235-246 | the scan stops at the first free candidate in scan order, or finds none when every candidate is used |
| Utilities.NearestFreeIsFirstFree | utilities.hpp:228-247 | the result is the original when free; otherwise the first free candidate, or the original when none within `maxDistance` is free |
| Utilities.FirstFreeIsNearest | utilities.hpp:235-245 | the first free cell lies on ring d and no free cell has a smaller Chebyshev distance |
| Sorting.SortBy | utilities.hpp:68 | `std::sort`: the result is sorted by the key and is a permutation of the input |
| Sorting.Ascending | clusters.hpp:126-139 | the keys of an ordered map in visiting order: strictly increasing and holding exactly the set's elements |
| TreeQueries.FindNodeById | tree.hpp:59-73 | returns a node with the id, found in the tree, and null exactly when the id is absent |
| TreeQueries.FindLCA | tree.hpp:46-57 | returns a node of the tree, and null exactly when neither id occurs |
| TreeQueries.LcaOfChildrenIsParent | tree.hpp:46-57 | the ids of a node's two children meet at that node |
| TreeQueries.LcaWithRootIsRoot | tree.hpp:46-48 | `findLCA(root, id, root->id)` returns the root at once, whatever `id` is |
| TreeQueries.CalculateManhattanDistance | tree.hpp:76-91 | -1 when either id is missing; a failure (the `front()` of an empty sink list) exactly when a found node stores no sink; otherwise the Manhattan distance \|dx\| + \|dy\| between the first stored sinks of the two found nodes |
| TreeQueries.AssignPhysicalLocations | tree.hpp:94-112 | the traversal returns the located tree `Located(node)` |
| TreeQueries.LocatedPointwise | tree.hpp:94-112 | a childless node with sinks takes its first sink's x, y, z and type "Leaf"; every other node and every other field is unchanged |
| TreeQueries.LocatedLeavesPlaced | tree.hpp:99-106 | every leaf with a sink sits at its first sink's position after the pass |
| TreeQueries.FindLocated | tree.hpp:94-112 | the pass keeps every id in place: a search in the located tree finds the located copy of the node the search in the original finds |
| TreeQueries.LocatedLeafDistance | tree.hpp:76-91 | once leaves are located, the distance between two leaves with sinks equals the Manhattan distance between the positions the pass wrote into them |
| TreeQueries.DistanceIgnoresPositions | tree.hpp:84-90 | the distance reads only the stored sinks: two trees that differ only in the (x, y, z) written into their nodes, a merged internal node included, give the same distance |
| TreeQueries.CalculateZeroSkewTreeWirelength | tree.hpp:541-557 | the total is non-negative and 0 for a leaf or a null tree |
| TreeQueries.WirelengthIsEdgeSum | tree.hpp:541-557 | the total equals the sum, over every node of the tree, of the Manhattan lengths of its edges to its children |
| TreeQueries.WirelengthCoversEveryEdge | tree.hpp:541-557 | the total is at least the length of the edges from any node of the tree to its children |
| TreeQueries.WirelengthCoversEveryNode | tree.hpp:541-557 | the total is at least the Manhattan distance from the root to any node of the tree |
| Timing.DepthFirstCapacitance | tree.hpp:142-171 | returns the subtree capacitance and the tree with every visited node's capacitance stored |
| Timing.CapacitanceStored | tree.hpp:167-170 | the capacitance stored at a node is the value returned for it |
| Timing.CapacitancePointwise | tree.hpp:142-171 | only the capacitance field changes; a buffered node keeps its stored value and its subtree is not visited |
| Timing.UnbufferedCapacitanceIsLeafSum | tree.hpp:142-171 | with no buffered node, the root's capacitance is the sum of the input capacitances of the leaf sinks |
| Timing.DepthFirstDelay | tree.hpp:173-203 | the top-down pass returns `WithDelay`, the tree with every node's Elmore delay stored |
| Timing.HierarchicalDelay | tree.hpp:206-209 | capacitance first, then delay seeded with the clock source's output resistance |
| Timing.DelaySubtree | tree.hpp:173-203 | the delay pass below a path equals the pass on the subtree seeded with the resistance accumulated above it |
| Timing.DelayAlongPath | tree.hpp:177-196 | every node's delay is (seed + path resistance + own resistance) x capacitance, plus the intrinsic delay when buffered; leaves and internal nodes alike |
| Timing.DelayPointwise | tree.hpp:173-203 | the delay pass changes only the elmoreDelay field |
| Timing.GetNodeValueMissing | tree.hpp:211-237 | an absent id reads as -1 |
| Timing.GetNodeValueFound | tree.hpp:211-237 | with non-negative values, the lookup returns the value of the first node in pre-order with the id |
| Timing.CalculateBottomUpDelay | main.cpp:1867-1909 | the post-order pass returns `BottomUpDelay(node)` |
| Timing.InternalDelay | main.cpp:1886-1904 | an internal node's delay is the larger child delay plus its resistance times its own and its children's capacitance |
| Timing.BottomUpDelayPointwise | main.cpp:1867-1909 | only the elmoreDelay field changes |
| Timing.BottomUpDelayDominatesChildren | main.cpp:1886-1908 | with non-negative resistances, capacitances and intrinsic delay, an internal node's delay is at least each child's |
| Builder.AdjustNearlyIdenticalCoords | tree.hpp:24-35 | the nested loop returns `Adjusted(sinks)`, each pair i < j compared on the current (already shifted) coordinates |
| Builder.AdjustRowShift | tree.hpp:26-32 | one inner loop moves each later sink diagonally by at most one step more |
| Builder.AdjustFromShift | tree.hpp:25-33 | the outer loop from row i on keeps every sink a diagonal shift of its original, bounded by the rows done |
| Builder.AdjustedShape | tree.hpp:18-35 | the list length is kept; each sink moves only by (+k, +k), so every other field (z, input capacitance) is kept, x and y shift alike by at most its index, and sink 0 never moves |
| Builder.Zcut | tree.hpp:246-289 | an empty list throws (at `getMinZ`); otherwise St and Sb are the sinks picked by z against Zmin (Zs <= Zmin), Zmax (Zs >= Zmax) or Zs itself, in input order |
| Builder.ZSidesPartition | tree.hpp:253-287 | every sink goes to exactly one of St and Sb: together they are a rearrangement of S |
| Builder.ZSideContains | tree.hpp:253-287 | each sink is on the side its z selects |
| Builder.ZcutBothSidesNonEmpty | tree.hpp:250-287 | when Zmin < Zmax both sides receive a sink, whatever Zs is |
| Builder.SplitPartition | tree.hpp:339-353 | the median partition sends each sink to exactly one side |
| Builder.SplitContains | tree.hpp:339-353 | a sink strictly below the median goes to St, any other to Sb |
| Builder.MedianUpperNonEmpty | tree.hpp:337-353 | the side at or above the median is never empty |
| Builder.PlanFor | tree.hpp:294-356 | an empty list fails (at `getMaxX`); a cut splits the whole list and its lower part is non-empty |
| Builder.ZPlan | tree.hpp:312-334 | a Z-cut splits the list into two non-empty parts |
| Builder.MedianPlan | tree.hpp:336-356 | a median split keeps every sink and leaves the upper part non-empty, with balances B/2 and B - B/2 |
| Builder.BuildNumbered | tree.hpp:306-362 | every node takes `nodeID++` before its children are built, so the ids of one build are consecutive in pre-order and the counter ends after them; every node has two children or none |
| Builder.NumberedOrder | tree.hpp:357-361 | a parent's id is below every descendant's, and the left subtree's ids are below the right subtree's |
| Builder.JoinNumbered | tree.hpp:357-361 | a node numbered before two consecutively numbered subtrees numbers the whole tree |
| Builder.BuildBaseCases | tree.hpp:306-309 | one sink gives a childless node taking one id; an empty list throws |
| Builder.BuildKeepsSinks | tree.hpp:292-363 | the leaves store as many sinks as the input has, and in the variant without jitter they are a rearrangement of it |
| Builder.BuildStep | tree.hpp:306-362 | one step of the recursion: a leaf, or a node storing its whole input list whose children are built from the halves, left first |
| Builder.EmptyLowerHalfThrows | main.cpp:315-381 | x = 0, 0, 5 has median 0, so the strictly-below half is empty and the recursion on it throws at `getMaxX` |
| Builder.SkewedSinksMedian | utilities.hpp:62-77 | the x median of 0, 0, 5 is 0 |
| Builder.DecideSplit | tree.hpp:294-356 | jitter (header variant only), measure the spans and decide: the result is `PlanFor(S, B)` |
| Builder.ChoosePlan | tree.hpp:301-356 | the branch taken on the spans is `PlanOf`: a leaf, a Z-cut with balances 0, 0 when x and y do not vary but z does, a Z-cut with balances 1, 1 when B is 1, else a median split on x when ΔX > ΔY and on y otherwise |
| Builder.MeasureSpan | tree.hpp:301-303 | `getMax - getMin` is the span of the non-empty list |
| Builder.MedianCut | tree.hpp:336-356 | the median branch is `MedianPlan` with balances B/2 and B - B/2 |
| Builder.ZcutPlan | tree.hpp:318-334 | the Z-cut branch is `ZPlan` |
| Builder.MedianSplit | tree.hpp:337-353 | the push-back loop builds exactly the strictly-below and at-or-above parts, in input order |
| Merge.ReadInputs | dme.hpp:199-222 | the merge reads segment delays, capacitances, the wire length and child positions of the two children; it fails exactly when a child stores no sinks (the Manhattan distance dereferences the first stored sink), and the length is never negative (main.cpp:967-970 takes the parent's delay minus each child's) |
| Merge.LookupsOfChildren | dme.hpp:199-213 | with the children's ids apart, the lookups by id return the right child's and the parent's own values, and the left child's value when it is non-negative (else -1, the left search rejecting it) |
| Merge.ReadInputsFields | dme.hpp:199-222 | with the children's ids apart, the merge reads the children's own delays (the header copy) or the parent's delay minus each child's (main.cpp:967-970), the children's capacitances, the distance between their first sinks, their positions and child 1's tier; it succeeds exactly when both children store a sink |
| Merge.TappingPoint | dme.hpp:229-236 | the tapping fraction x solves x * denominator = numerator; a zero denominator is a division by zero |
| Merge.ZeroSkewBalance | dme.hpp:228-236 | at the tapping point the Elmore delay through x L of wire from child 1 equals the delay through (1 - x) L from child 2: zero skew |
| Merge.TapDistancesSplitLength | dme.hpp:239-247 | for 0 <= x <= 1 the two grid distances are non-negative and add up to L exactly |
| Merge.TapDistancesNearTap | dme.hpp:239-247 | the child with the larger delay gets ceil(x L) and the other floor((1 - x) L), each within one unit of its real distance; main.cpp:1008-1011 always gives ceil(x L) to child 1 |
| Merge.LPrimeBalances | dme.hpp:332-336 | a wire of length l' from the near child adds exactly the delay difference to that child's delay |
| Merge.QuadraticRoot | dme.hpp:332-336 | the root formula used for l' solves the quadratic rc l^2 / 2 + k l = delta |
| Merge.WireDelayExpanded | dme.hpp:229-236 | the Elmore wire term r l (c l / 2 + load) expands to the quadratic in l |
| Merge.Extend | dme.hpp:328-363 | out of range, a buffer replaces the extension exactly when L + round(l') > 1.5 L: then the extension is 0 and l' is L; otherwise the extension is round(l') and stays within 1.5 L |
| Merge.ExtendBalances | dme.hpp:328-337 | without a buffer, x > 1 extends child 1's wire until it reaches child 2's delay, and x < 0 (dme.hpp:414-422) the other way round |
| Merge.SquareRootOrder | dme.hpp:332-336 | of two non-negative reals, the one with the larger square is the larger |
| Merge.WireDelayMonotone | dme.hpp:332-336 | with positive wire resistance and capacitance, a longer wire never has a smaller delay |
| Merge.OutOfRangeAlwaysBuffers | dme.hpp:324-448 | with positive wire parameters and non-negative loads, every out-of-range tapping point inserts a buffer: l' exceeds L, so L + round(l') > 1.5 L |
| Merge.OutsideNeedsMoreThanWire | dme.hpp:228-236 | x > 1 (or x < 0) means the delay difference exceeds what the whole wire L adds to child 1 (child 2), and L is positive |
| Merge.LPrimeBeyondWire | dme.hpp:332-336 | when the delay difference exceeds what a wire of length L adds, l' exists and is longer than L |
| Merge.Column | dme.hpp:271-285 | the column filter keeps at most as many points as it reads |
| Merge.ColumnMembers | dme.hpp:271-285 | a point survives exactly when it lies in the child's column with non-negative coordinates and inside the layout bound (dme.hpp:375-381 inclusive, main.cpp:1147 strict) |
| Merge.SelectColumn | dme.hpp:375-381 | the candidate loop returns exactly the admitted points, in input order |
| Merge.InRangeCandidates | dme.hpp:255-295 | in range, a child at non-negative coordinates always contributes the candidate straight above it, so the candidate list handed to the embedding is not empty |
| Merge.PlaceAtCentre | dme.hpp:297-319 | the parent lands on the free cell nearest to the rounded centre of the candidates |
| Merge.ShadowedLengthDiffers | dme.hpp:410-413 | for the merge ShadowExample (x = -1.5, a buffer goes in and l' = L = 1) the value returned at line 497 as written is 0, not 1, because the branch's own l' shadows the returned one |
| Merge.ReturnedLengthIsWire | dme.hpp:324-497 | the corrected return value out of range is the wire laid from the near child: l' without a buffer (and it balances the delays), L with one, in both directions |
| Merge.ZeroSkewMerge | dme.hpp:195-499 | the merge of a node's two children returns the length and the written parent described by MergeSpec, failing on a missing sink, a zero denominator, a NaN l' or an empty candidate list; the length is the corrected one (see Findings) |
| Merge.MergeLengthAsWritten | dme.hpp:410-497 | a successful merge returns the value returned as written whenever x >= 0; for x < 0 it returns the branch's own l', where the code as written returns 0 |
| Merge.CollectCandidates | dme.hpp:255-295 | the three candidate loops return exactly the candidate list of the branch taken |
| Merge.AssignMergingPoint | dme.hpp:311-319 | the assignment loop writes the first embedded point, moved to the nearest free cell, child 1's tier and "Merging Point" onto the parent |
| Merge.Ancestors | dme.hpp:300-308 | the ancestor walk collects only the parent: the common ancestor of the parent and the root is the root, where the walk stops |
| Merge.MergeFrame | dme.hpp:311-363 | a merge changes only the parent's position, tier, type and buffer fields; the type becomes "Merging Point" and the tier is child 1's |
| Merge.ReadInputsTier | dme.hpp:317 | the tier written is child 1's, read from it at line 201 |
| Merge.MergeBufferFields | dme.hpp:341-363 | with a buffer the parent gets bufferDelay = \|d1 - d2\|, the buffer's output resistance and input capacitance; without one those fields are unchanged; main.cpp:1212-1233 keeps the capacitance and adds the intrinsic delay when x < 0 |
| Merge.InRangeMergeSucceeds | dme.hpp:249-322 | an in-range merge of children at non-negative coordinates succeeds and returns x L |
| Merge.ZeroSkewTree | dme.hpp:501-517 | the post-order pass returns what ZeroSkewTreeSpec describes: leaves as they are, each node merged after its subtrees when both children have a location |
| Merge.ZeroSkewTreeFrame | dme.hpp:501-517 | the pass keeps the shape, ids, sinks, colours, clusters and every leaf; the leaf sequence is unchanged |
| Merge.ZeroSkewTreeMergesLocatedPairs | dme.hpp:509-512 | a node whose processed children both have a location comes out as a merging point |
| Dme.PointDistance | tree.hpp:239-241 | the Manhattan distance is non-negative and zero exactly for points at the same place |
| Dme.FindPoints | dme.hpp:12-19 | the four candidates lie right, left, up and down of the centre, in that order, each at Manhattan distance \|d\| |
| Dme.FarthestFromBounds | dme.hpp:23-26 | the inner maximum bounds the distance from one point to each later point and is attained when there is one |
| Dme.DiameterBounds | dme.hpp:21-29 | the largest pairwise distance bounds every pair |
| Dme.DiameterAttained | dme.hpp:21-29 | with two or more points some pair attains the largest distance |
| Dme.RadiusIsHalfDiameter | dme.hpp:21-29 | `radius` is half the largest pairwise distance: it bounds every pair, some pair attains it, and it is 0 for fewer than two points |
| Dme.MaxIsDiameter | dme.hpp:22-28 | a running maximum that bounds every pair and is 0 or some pair's distance is the largest pairwise distance |
| Dme.ComputeRadius | dme.hpp:21-29 | the double loop returns half the largest pairwise distance |
| Dme.TruncXs | dme.hpp:45-48 | the coordinates as `(int)sink.x` reads them, one per point |
| Dme.MinMaxOfBound | dme.hpp:41-49 | the least and greatest truncated coordinate bound every coordinate |
| Dme.MinMaxOfAttained | dme.hpp:41-49 | the least and greatest truncated coordinate are coordinates of some point |
| Dme.BoxIsMinMax | dme.hpp:41-49 | bounds on every coordinate that are themselves coordinates are the least and the greatest |
| Dme.BoundingBox | dme.hpp:41-49 | the min/max loop returns the bounding box of the truncated coordinates |
| Dme.Center | dme.hpp:31-57 | no points give (0, 0) and one point gives itself |
| Dme.ComputeCenter | dme.hpp:31-57 | `center` returns (0, 0), the single point, or the rounded middle of the bounding box |
| Dme.RoundMidpointBetween | dme.hpp:52-56 | rounding the middle of two integers gives a value between them |
| Dme.CenterInsideBox | dme.hpp:41-56 | for two or more points the centre is a grid point inside the bounding box of the truncated coordinates |
| Dme.SidesPartition | dme.hpp:88-134 | each cut sends every point to exactly one half: the halves' sizes add up and together they are a permutation of S' |
| Dme.SideMembers | dme.hpp:88-134 | a point is in the first half exactly when the rule keeps it (x <= ms.x, y <= ms.y, x + y <= ms.x + ms.y, or the same quadrant), else in the second |
| Dme.SplitBy | dme.hpp:88-134 | the push_back loop of each cut returns the two halves in input order |
| Dme.AxisCut | dme.hpp:88-107 | the x cut, falling back to the y cut when a half is empty, keeps every point |
| Dme.EvenCut | dme.hpp:136-149 | the last fallback, the list sorted by x + y and cut at n / 2, gives two non-empty halves for two or more points |
| Dme.Halves | dme.hpp:72-151 | the chain of cuts always ends with two non-empty halves whose sizes add up to \|S'\| |
| Dme.HalvesPermutation | dme.hpp:72-151 | the two halves are a permutation of S' |
| Dme.AllIdentical | dme.hpp:72-80 | the scan reports whether every point coincides with the first |
| Dme.DivideAround | dme.hpp:72-151 | the partitioning code returns exactly the halves Halves describes |
| Dme.SubPoints | dme.hpp:59-159 | the recursion appends one point per internal node: \|S'\| - 1 points |
| Dme.SubPointsSplit | dme.hpp:64-158 | the merging point comes first, then the points of the first half, then those of the second |
| Dme.SubPointsRounded | dme.hpp:64-68 | every appended merging point is already on the grid |
| Dme.RoundTwice | dme.hpp:183-190 | rounding a rounded point changes nothing |
| Dme.LinearPlanarDmeSub | dme.hpp:59-159 | the recursive procedure appends exactly SubPoints(S') to the collected points |
| Dme.DmePointsRounded | dme.hpp:183-190 | the final rounding pass changes none of the collected points |
| Dme.DmePointsShape | dme.hpp:161-193 | `linear_planar_dme` returns one grid point per sink, the rounded start point first |
| Dme.LinearPlanarDme | dme.hpp:161-193 | it fails exactly on an empty sink list and otherwise returns the start point and the merging points of the recursion |
| Clustering.NearIsSqrtBelow | clustering.hpp:17 | the squared-distance test used by the model agrees with `euclideanDistance(p, q) <= eps` |
| Clustering.NeighborsBelow | clustering.hpp:16-20 | the indices below n whose points lie within eps of point P, each once, in increasing order |
| Clustering.Neighbors | clustering.hpp:13-22 | an index is a neighbour exactly when its point lies within eps of point P; the list is strictly increasing |
| Clustering.RegionQuery | clustering.hpp:13-22 | the scan returns exactly the neighbours of P, in index order |
| Clustering.NeighborsOfPositions | clustering.hpp:13-22 | neighbourhoods depend only on positions, not on labels, and P is its own neighbour when eps >= 0 |
| Clustering.Labels | clustering.hpp:26-33 | the labels read off the points, one per point |
| Clustering.SetLabel | clustering.hpp:26-33 | relabelling one point changes that point's label and nothing else |
| Clustering.CountAfterSetLabel | clustering.hpp:26-33 | relabelling one point moves one unit between the two label counts |
| Clustering.ZerosAfterSetLabel | clustering.hpp:32-33 | giving an unvisited point a cluster decreases the number of unvisited points; the expansion therefore terminates |
| Clustering.ExpandFrom | clustering.hpp:27-40 | the worklist expansion only ever turns unvisited or noise points into members of the cluster |
| Clustering.Expand | clustering.hpp:23-41 | after expansion P belongs to the cluster and every other change labels a point with the cluster |
| Clustering.ExpandCluster | clustering.hpp:23-41 | the in-place expansion over the array leaves exactly the labels Expand describes |
| Clustering.ExpandStep | clustering.hpp:28-39 | one worklist step keeps the expansion's outcome, appends only when a new core point is found, and either labels an unvisited point or leaves the worklist unchanged |
| Clustering.FirstPass | clustering.hpp:47-59 | the first pass keeps the number of points and never lowers the cluster counter |
| Clustering.FirstPassConsecutive | clustering.hpp:47-59 | after the first pass the positive labels are exactly 1..clusterId, each used |
| Clustering.FirstPassLoop | clustering.hpp:43-59 | the loop over the array leaves the labels and counter FirstPass describes |
| Clustering.SizesOf | clustering.hpp:62-67 | the size map has exactly the positive labels as keys |
| Clustering.SizesSnoc | clustering.hpp:63-66 | one more point increments its cluster's count, or changes nothing when it is unclustered |
| Clustering.ClusterSizes | clustering.hpp:62-67 | the counting loop returns the size of every cluster |
| Clustering.PairsOf | clustering.hpp:70-73 | one (size, id) pair per cluster, in ascending id order as a std::map iterates |
| Clustering.InsertDescending | clustering.hpp:74-76 | inserting into a list sorted by std::greater keeps it sorted and adds exactly the new pair |
| Clustering.SortDescending | clustering.hpp:74-76 | the sort by std::greater on (size, id) is sorted descending and a permutation of its input |
| Clustering.SortKeepsDistinct | clustering.hpp:74-76 | sorting keeps the cluster ids distinct |
| Clustering.SortedClusters | clustering.hpp:70-76 | the collect-and-sort code returns the pairs sorted in descending order |
| Clustering.KeepClusters | clustering.hpp:79-82 | the kept ids are those of the first min(bound, count) sorted pairs |
| Clustering.PrefixIdsSize | clustering.hpp:80-82 | min(bound, count) clusters are kept, or none for a non-positive bound |
| Clustering.Demote | clustering.hpp:85-90 | demotion keeps the number of points |
| Clustering.DemoteSmaller | clustering.hpp:85-90 | the second pass over the array sets the points of dropped clusters to 0 and leaves the rest |
| Clustering.RemapClusters | clustering.hpp:93-97 | the kept ids, in ascending order, are numbered 1, 2, ... |
| Clustering.RemapOfPositions | clustering.hpp:93-97 | the remap holds exactly the kept ids and maps the j-th smallest to j + 1 |
| Clustering.RenumberingMonotone | clustering.hpp:93-97 | renumbering keeps the order of the kept ids and stays within 1..\|keep\| |
| Clustering.Renumber | clustering.hpp:100-104 | renumbering keeps the number of points |
| Clustering.ApplyRemap | clustering.hpp:100-104 | the loop over the array replaces every positive label by its new number |
| Clustering.SecondPass | clustering.hpp:61-104 | the size-bounding phase keeps the number of points |
| Clustering.BoundedDbscan | clustering.hpp:43-105 | the whole `dbscan` keeps the number of points |
| Clustering.Dbscan | clustering.hpp:43-105 | the in-place `dbscan` on the array leaves exactly the labels BoundedDbscan describes |
| Clustering.RankedPairs | clustering.hpp:62-76 | the sorted pairs are exactly the (size, id) of every cluster, one per cluster |
| Clustering.KeptAreLargest | clustering.hpp:74-82 | a kept cluster is larger than a dropped one, or equally large with a larger id |
| Clustering.SecondPhase | clustering.hpp:84-104 | positions never change; unclustered points stay as they are, dropped clusters become 0, kept ones get their rank in 1..\|keep\| |
| Clustering.KeptClusters | clustering.hpp:78-82 | with clusters 1..c after the first pass, min(bound, c) of them are kept |
| Clustering.SecondPassConsecutive | clustering.hpp:84-104 | after the second phase the positive labels are exactly 1..min(bound, c) |
| Clustering.SecondPassBounded | clustering.hpp:84-104 | from non-negative labels, the second phase leaves every label between 0 and the number of kept clusters |
| Clustering.SecondPassUsesKept | clustering.hpp:93-104 | every new number from 1 to the number of kept clusters is carried by some point after the second phase |
| Clustering.DbscanLabels | clustering.hpp:43-105 | on unvisited input, `dbscan` leaves consecutive labels 1..k with k at most the bound |
| Clustering.NoBoundNoClusters | clustering.hpp:80-90 | a bound of 0 or less leaves every point unclustered |
| Clustering.FirstMatchFrom | clustering.hpp:153-158 | the label of the first point at a sink's position, or none when no point is there |
| Clustering.FindPoint | clustering.hpp:153-158 | the inner loop stops at the first point at the sink's position and returns its label |
| Clustering.LeafLabelIsLastMatch | clustering.hpp:152-159 | the leaf ends up with the label matched for its last sink that has a match, or keeps its label when none has |
| Clustering.AssignClusterIdsToLeafNodes | clustering.hpp:146-164 | the recursive walk labels every leaf as AssignLeaves describes and leaves internal nodes alone |
| Clustering.LeafLabelFromPoints | clustering.hpp:152-159 | a leaf's new label is its old one or a label of some point |
| Clustering.AssignLeavesPointwise | clustering.hpp:146-164 | the walk keeps the tree's shape and changes only leaves' cluster ids |
| Clustering.SinkPoints | clustering.hpp:170-174 | one unvisited point per sink, at the sink's position |
| Clustering.PointsOfSinks | clustering.hpp:170-174 | the loop builds exactly those points |
| Clustering.RunDbscanAndAssignClusters | clustering.hpp:166-181 | the tree after clustering its sinks and labelling its leaves, as ClusterTree describes |
| Clustering.ClusterTreeLabels | clustering.hpp:166-178 | only leaf cluster ids change, and every label is in 0..bound |
| Clustering.SinkLabelRange | clustering.hpp:170-176 | every label DBSCAN gives the sinks' points lies in 0..bound |
| LegacyClustering.LegacyPass | clusters.hpp:202-216 | the older pass keeps the number of points and never lowers the cluster counter |
| LegacyClustering.LegacyPassLabels | clusters.hpp:204-215 | sparse points become noise (-1), so once a point is visited it is never left at 0, and the cluster ids issued are exactly 1..clusterId |
| LegacyClustering.LegacyNoiseStep | clusters.hpp:204-215 | marking a sparse unvisited point as noise keeps ids 1..c in use and leaves that point visited |
| LegacyClustering.LegacyExpandStep | clusters.hpp:204-215 | growing cluster c + 1 from an unvisited point puts id c + 1 in use, keeps every label noise or within 1..c + 1 and leaves the points up to it visited |
| LegacyClustering.LegacyDbscan | clusters.hpp:202-216 | the in-place older `dbscan` on the array leaves exactly the labels LegacyPass describes |
| LegacyClustering.LegacyDbscanLabels | clusters.hpp:202-216 | from all-unvisited points, no point is left at 0 and the labels are noise or consecutive ids from 1 |
| Wirelength.Count | tree.hpp:508-526 | the number of sinks already in the tree never exceeds the number of sinks |
| Wirelength.Edges | tree.hpp:509-534 | one edge length per sink, the distance to the sink it hangs from |
| Wirelength.SumWhereFlag | tree.hpp:526-527 | adding a sink to the tree adds its distance to the total and one to the count |
| Wirelength.SumWhereFrame | tree.hpp:530-537 | relaxing only sinks outside the tree leaves the accumulated total unchanged |
| Wirelength.SumWhereAll | tree.hpp:514-539 | once every sink is in the tree, the total is the sum of all recorded distances |
| Wirelength.SumMonotone | tree.hpp:503-540 | a pointwise smaller list of edge lengths has a smaller sum |
| Wirelength.SmallSpanningTree | tree.hpp:503-540 | a spanning tree over fewer than two sinks has length 0, over two sinks their Manhattan distance |
| Wirelength.Relaxed | tree.hpp:530-537 | relaxation never raises a distance, leaves sinks in the tree alone, and brings every other sink within its distance to the new sink |
| Wirelength.SelectionExists | tree.hpp:516-523 | while sinks remain, one of them has a finite distance, so the selection never returns -1 |
| Wirelength.FirstRoundPicksRoot | tree.hpp:510-523 | the first round selects sink 0 |
| Wirelength.PrimStep | tree.hpp:514-538 | one round keeps Prim's invariant: one more sink in the tree, the total grown by its edge, every connected sink hanging off an earlier one |
| Wirelength.PrimStart | tree.hpp:508-512 | the initial arrays satisfy Prim's invariant |
| Wirelength.PrimDone | tree.hpp:514-539 | after n rounds the distances are the edges of a spanning tree and the total is their sum |
| Wirelength.TreeWithinStar | tree.hpp:530-537 | the tree found is no longer than the star that joins every sink to sink 0 |
| Wirelength.CalculateWirelength | tree.hpp:503-540 | Prim's loop returns the length of a spanning tree of the sinks, no longer than the star from sink 0: 0 for fewer than two sinks and their distance for two |
| Wirelength.PrimArrays | tree.hpp:508-510 | the flags start false and the distances at INT_MAX except sink 0's, which is 0 |
| Wirelength.PrimRounds | tree.hpp:514-538 | the n rounds leave the edge lengths of a spanning tree, each at most the distance to sink 0 |
| Wirelength.PrimRound | tree.hpp:515-537 | one round of the outer loop keeps Prim's invariant on the arrays |
| Wirelength.SelectNearest | tree.hpp:516-523 | the scan returns the first sink outside the tree with the least distance, or -1 when all remaining distances are INT_MAX |
| Wirelength.Relax | tree.hpp:530-537 | the relaxation loop updates the distance array as Relaxed describes |
| ClusterGroups.CollectNodesByClusterId | clusters.hpp:37-44 | the recursive walk adds every node of the tree to its label's list in pre-order, giving exactly the map Collect describes |
| ClusterGroups.WithLabelMembers | clusters.hpp:41 | a label's list holds exactly the nodes of the walk that carry that label |
| ClusterGroups.WithLabelAppend | clusters.hpp:41-43 | filtering by label distributes over concatenating two walks |
| ClusterGroups.CollectKeys | clusters.hpp:37-44 | after the walk the map's keys are the keys it had plus the labels of the tree |
| ClusterGroups.CollectGet | clusters.hpp:37-44 | after the walk a label's list is its old list followed by the tree's nodes with that label, in pre-order |
| ClusterGroups.WithLabelNodes | clusters.hpp:41-43 | the nodes of a tree with a label are the root (if it has it), then the left sub-tree's, then the right's |
| ClusterGroups.AddNodeGet | clusters.hpp:41 | pushing one node changes only its own label's list |
| ClusterGroups.GroupsOfTree | clusters.hpp:47-50 | grouping a whole tree gives one key per label present, each holding exactly the tree's nodes with that label, in pre-order |
| ClusterGroups.GroupsCarryLabels | clusters.hpp:41 | every node in a group carries the group's label |
| ClusterGroups.LabelHasNode | clusters.hpp:41 | every label of the tree is carried by some node of it |
| ClusterGroups.GroupsHoldNodes | clusters.hpp:37-44 | every group of a tree is a non-empty list of nodes |
| ClusterGroups.Leaves | clusters.hpp:62-64 | the childless nodes of a list are exactly the sinks counted by the midpoint |
| ClusterGroups.SumsSnoc | clusters.hpp:65-66 | adding one more node adds its coordinates to the running sums |
| ClusterGroups.LeafSums | clusters.hpp:58-69 | the loop returns the sums of the leaves' coordinates and their count |
| ClusterGroups.GroupMidpoint | clusters.hpp:71-79 | a midpoint is recorded exactly when the group has a leaf, and it is the ceiling of the mean x and the floor of the mean y |
| ClusterGroups.CalculateClusterMidpoints | clusters.hpp:47-83 | the map returned has one entry per label whose group has a leaf, holding that group's rounded leaf mean |
| ClusterGroups.MidpointsOfGroups | clusters.hpp:54-80 | the loop over the groups, in whatever order, yields the same map of midpoints |
| ClusterGroups.MidpointsStep | clusters.hpp:71-79 | visiting one more group adds its entry exactly when it has a leaf and leaves the rest unchanged |
| ClusterGroups.MidpointsExtensional | clusters.hpp:54-80 | any map with exactly the labels of groups with leaves, each holding its midpoint, is the midpoints map, so the visiting order does not matter |
| ClusterGroups.SumXBetween | clusters.hpp:65 | a sum of x coordinates each within [lo, hi] lies within count·lo and count·hi |
| ClusterGroups.SumYBetween | clusters.hpp:66 | a sum of y coordinates each within [lo, hi] lies within count·lo and count·hi |
| ClusterGroups.MeanBetween | clusters.hpp:72-73 | a mean of values within [lo, hi] lies within [lo, hi] |
| ClusterGroups.RoundedBetween | clusters.hpp:72-78 | rounding up, down (as at line 78) or toward zero (as at lines 99-100) a value within integer bounds stays within them |
| ClusterGroups.MidpointInBox | clusters.hpp:71-79 | a cluster's midpoint lies in any box that holds all of its leaves |
| ClusterGroups.GetMidpointByClusterId | clusters.hpp:164-171 | the point looked up is unlabelled; it is the stored midpoint when the id has one and (-1, -1) when it has none |
| ClusterGroups.MidpointOfLabel | clusters.hpp:164-171 | looking up a label of the tree's midpoints gives a point inside the box of its leaves when it has leaves, and (-1, -1) otherwise |
| ClusterGroups.NoMembers | clusters.hpp:62 | a list with no members is empty |
| ClusterGroups.NodeInLabels | clusters.hpp:41 | the label of every node of a tree is among the tree's labels |
| ClusterGroups.AssignClusterIdToTree | clusters.hpp:141-149 | the recursion returns the tree with every node relabelled and nothing else changed |
| ClusterGroups.RelabelPointwise | clusters.hpp:141-149 | relabelling keeps the shape and every field but the label, and leaves a non-empty tree with the single label given |
| Subtrees.SliceHoldsNodes | clusters.hpp:111-118 | a half of a list of nodes is a list of nodes |
| Subtrees.SubtreeBase | clusters.hpp:85-108 | no nodes give a null sub-tree, and one node is itself the sub-tree |
| Subtrees.SubtreeStep | clusters.hpp:89-121 | two or more nodes give a "ClusterRoot" node with the next id, whose left sub-tree is built from the first half with the following id and whose right sub-tree starts after the ids the left one used |
| Subtrees.SubtreeRoot | clusters.hpp:85-108 | the sub-tree is null exactly for no nodes, and otherwise carries the first node's label and tier |
| Subtrees.SubtreeSplit | clusters.hpp:106-121 | the sub-tree splits its list into the first half on the left and the rest on the right, down to single nodes |
| Subtrees.SplitFrontier | clusters.hpp:106-121 | the leaves of such a split, read left to right, are the list itself |
| Subtrees.SplitSpine | clusters.hpp:89-121 | a split of n nodes adds exactly n - 1 cluster roots |
| Subtrees.SubtreeRoots | clusters.hpp:89-103 | every added root takes its first node's label and tier and the truncated mean position of its slice |
| Subtrees.SpineOfGroup | clusters.hpp:89-103 | when every node of a list shares a label and a tier and lies in a box, every added root does too |
| Subtrees.CentreInBox | clusters.hpp:94-100 | the truncated mean position of a slice lies in any box that holds all of its nodes |
| Subtrees.ClusterSubtreeShape | clusters.hpp:84-124 | the sub-tree of a non-empty list has that list as its leaves in order, n - 1 added roots, and for a list sharing label, tier and box, roots that share them too |
| Subtrees.SubtreeFrontierSpine | clusters.hpp:84-124 | the sub-tree of a non-empty list has that list as its leaves in order and n - 1 added roots |
| Subtrees.SubtreeSpineRoots | clusters.hpp:84-124 | for a list sharing label, tier and box, every added root of its sub-tree shares them too |
| Subtrees.NonNoise | clusters.hpp:132 | the labels kept are exactly those other than noise (-1) |
| Subtrees.NonNoiseIncreasing | clusters.hpp:127-136 | dropping noise from labels in ascending order keeps them ascending |
| Subtrees.NonNoiseSnoc | clusters.hpp:131-132 | one more label adds itself unless it is noise |
| Subtrees.SubtreesSpec | clusters.hpp:126-139 | one sub-tree per label visited |
| Subtrees.SubtreesIds | clusters.hpp:90 | every label visited takes at least one id |
| Subtrees.SubtreesSnoc | clusters.hpp:131-135 | one more label appends its sub-tree, numbered after the ids the earlier ones used |
| Subtrees.GroupedSnoc | clusters.hpp:131-133 | a label with a non-empty group can be visited next |
| Subtrees.SubtreesIdsSnoc | clusters.hpp:131-135 | one more label uses 2n - 1 more ids for its n nodes (one per `nodeID++` at line 90) |
| Subtrees.SubtreesRoots | clusters.hpp:131-135 | the j-th sub-tree is a node carrying the j-th label visited |
| Subtrees.SubtreeLabelsOrder | clusters.hpp:127-136 | the labels visited are the tree's labels other than noise, in strictly ascending order, each once |
| Subtrees.ClusterSubtreesLabels | clusters.hpp:126-139 | `createClusterSubtrees` returns one sub-tree per label other than noise, the j-th rooted at a node carrying the j-th smallest such label |
| Flow.Synthesizer.constructor | globals.hpp:18 | the node-id counter starts at 0 |
| Flow.Synthesizer.AbsTreeGen3D | tree.hpp:292-363 | the builder returns the tree BuildSpec describes and leaves the counter after the ids it took, or fails as BuildSpec does |
| Flow.Synthesizer.BuildCut | tree.hpp:357-362 | a cut node takes an id before its top half is built on the left and its bottom half on the right |
| Flow.Synthesizer.BuildSubtree | clusters.hpp:84-124 | the sub-tree of a slice is SubtreeOf, and it uses 2n - 1 ids for n nodes |
| Flow.Synthesizer.BuildSubtreeHalves | clusters.hpp:110-123 | the halves of a slice of two or more are built in order after the root's id |
| Flow.Synthesizer.NewClusterRoot | clusters.hpp:89-103 | the new root takes the next id, the first node's label and tier, and the truncated mean position |
| Flow.Synthesizer.CreateClusterSubtree | clusters.hpp:84-124 | the sub-tree of a list is SubtreeSpec, and it uses 2n - 1 ids for n nodes |
| Flow.Synthesizer.CreateClusterSubtrees | clusters.hpp:126-139 | the result is ClusterSubtrees (one per label other than noise, ascending) and the counter advances by the ids they used |
| Flow.Synthesizer.SubtreesOfKeys | clusters.hpp:130-136 | the loop over the keys builds one sub-tree per non-noise key in order, numbering each after the ones before |
| Flow.KeysStep | clusters.hpp:131-135 | a noise key changes nothing, any other key appends its sub-tree and its 2n - 1 ids |
| Flow.Centre | clusters.hpp:94-100 | the loop returns the truncated mean x and y of the slice |
| Tiers.OnTier | main.cpp:1945-1946 | the sinks kept are exactly those on tier z, no more than there were |
| Tiers.OnTierSnoc | main.cpp:1946 | one more sink is appended to its own tier only |
| Tiers.ByTierSpec | main.cpp:1942-1947 | the map has a key for exactly the tiers holding a sink, each holding that tier's sinks in input order |
| Tiers.ByTierPoint | main.cpp:1945-1947 | one more sink keeps each tier's entry equal to that tier's sinks |
| Tiers.GroupByTier | main.cpp:1942-1947 | the loop builds the map ByTier describes |
| Tiers.BuiltUnlabelled | tree.hpp:292-363 | every node the builder makes is unlabelled (-1) |
| Tiers.LocatedLabels | main.cpp:1969 | placing the nodes does not change their labels |
| Tiers.AssignedLabels | clustering.hpp:146-164 | copying labels from the points only introduces labels the points carry |
| Tiers.ClusteredLabels | main.cpp:1974 | after clustering an unlabelled tree every label is noise or a cluster id in 0..bound |
| Tiers.AssignedLabelsWithin | clustering.hpp:146-164 | copying labels within 0..bound onto an unlabelled tree leaves only noise or labels within 0..bound |
| Tiers.ClusterCount | main.cpp:1935 | labels within 0..bound, noise aside, number at most bound + 1 |
| Tiers.CapacitanceLabels | main.cpp:1992-1995 | computing capacitances does not change labels |
| Tiers.DelayLabels | main.cpp:1996 | computing delays does not change labels |
| Tiers.MergeLabels | main.cpp:1993 | the zero-skew merge does not change labels |
| Tiers.MivTree | main.cpp:1987-1996 | the zero-skew tree of a cluster is rooted at an "MIV" node and every node carries the cluster's id |
| Tiers.ClusterMiv | main.cpp:2000-2006 | the root sink of a cluster is an "MIV" sink on the tier with the cluster's id |
| Tiers.MivsMatchSnoc | main.cpp:2007 | one more matching sink extends a matching list |
| Tiers.MivsOfSinks | main.cpp:1981-2007 | the tier's MIV list holds one sink per cluster sub-tree, in order, each with its sub-tree's label |
| Tiers.MivsOfStep | main.cpp:1981-2007 | one more sub-tree appends its MIV sink or fails |
| Tiers.MivsOfFailure | main.cpp:1981-2007 | a failure on a prefix of the sub-trees is the failure of the whole loop |
| Tiers.ClusterMivsBounded | main.cpp:1974-2007 | with the bound of line 1935, a tier yields at most bound + 1 MIV sinks, each on the tier with a label in 0..bound, in strictly ascending label order |
| Tiers.MatchedMivsBounded | main.cpp:1981-2007 | sinks matching sub-trees with ascending labels within 0..bound are at most bound + 1, within bounds and ascending |
| Tiers.TierMivs | main.cpp:1962-2007 | with the bound of line 1935, a processed tier yields at most bound + 1 MIV sinks on that tier, with distinct ascending labels in 0..bound |
| Tiers.RecordPush | main.cpp:2007 | recording one sink more is one more push onto the tier's list |
| Tiers.FlowSpecStep | main.cpp:1949-2007 | the flow over one more tier is one more tier step after the flow so far |
| Tiers.FlowSpecFailure | main.cpp:1949-2007 | a failing tier fails the whole flow |
| Tiers.FlowStepMivs | main.cpp:1949-2007 | a new tier keeps the MIV map within bounds and adds at most its own key |
| Tiers.RecordWithin | main.cpp:2007 | recording a bounded tier's sinks under a new key keeps the MIV map within bounds |
| Tiers.FlowMivs | main.cpp:1949-2007 | over ascending tiers every MIV entry has between 1 and bound + 1 sinks on that tier with labels in 0..bound, and is keyed by a tier visited |
| Tiers.FlowOfSinksMivs | main.cpp:1935-2007 | the whole flow records MIV sinks only for tiers holding a sink, at most bound + 1 per tier, each labelled within 0..bound |
| Tiers.MivOfSubtree | main.cpp:1981-2007 | the MIV sink of one cluster is ClusterMiv's, with the counter after the builder's ids |
| Tiers.MivsOfSubtrees | main.cpp:1981-2007 | the loop over the cluster roots returns MivsOf's list and counter |
| Tiers.MivsOfClusters | main.cpp:1977-2007 | the cluster sub-trees of a tier and their MIV sinks are ClusterMivs's |
| Tiers.ProcessTier | main.cpp:1962-2007 | building, placing, clustering and merging a tier returns TierSpec's MIV sinks and counter |
| Tiers.RunTier | main.cpp:1949-2007 | one pass over a tier returns FlowStep's map and counter |
| Tiers.GroupOfTier | main.cpp:1952-1959 | a tier's group is its own sinks followed, when z > 1, by the MIV sinks of tier z - 1 |
| Tiers.PushMivs | main.cpp:2007 | pushing a tier's sinks appends them to its entry, creating it only when there is something to push |
| Tiers.RunFlow | main.cpp:1935-2007 | the whole flow with bound 70 returns FlowOfSinks's map of MIV sinks |
| Tiers.RunTiers | main.cpp:1949-2007 | the loop over ascending tiers returns FlowSpec's map and counter |
| Numerics.Floor | utilities.hpp:207-210 | `floor`: the greatest integer not above the value |
| Numerics.Ceil | utilities.hpp:208-210 | `ceil`: the least integer not below the value |
| Numerics.Round | dme.hpp:56 | `round`: the nearest integer, halves rounded away from zero |
| Numerics.Trunc | clusters.hpp:99-100 | storing a double into an int field drops the fraction toward zero, keeping the sign |
| Numerics.TruncDiv | utilities.hpp:72 | C++ integer division truncates toward zero: the quotient has the sign of the exact quotient and the largest magnitude whose multiple of \|b\| does not exceed \|a\| |
| Builder.BuildSpec | tree.hpp:292-363 | a successful build needs a non-empty list and is rooted at a node that stores the whole input list |
| Timing.FindFirst | tree.hpp:211-237 | the node the lookup reads is one with the requested id |
| Timing.FoundValueNonNegative | tree.hpp:211-237 | a found value is non-negative when every stored value is, so -1 marks an absent id unambiguously |

## Left out

- Console and file I/O carry no algorithmic content and are not modelled:
  - `parseInput`, `displayParsedData`, `exportNode`, `exportPointsAndLines`;
  - `outputDBSCANResults`, `cleanupPreviousFiles`;
  - the `print*` functions and every `cout`;
  - the log-file redirection and chrono timing in main.cpp.
- In the per-tier flow, several values are only printed: the wirelength
  sums, `calculateWirelength(sinksGroup)`, the cluster midpoints looked up
  per sub-tree, and `calculateZeroSkewTreeWirelength` of each sub-tree.
  The flow model therefore leaves them out. The functions themselves are
  modelled.
- The Python visualisation and test-generation scripts are not part of
  this model.
- Heap ownership is not modelled: `new`/`delete`, `deleteTree`, the leaked
  "ClusterRoot" node in the one-node case, shared pointers and aliasing.
  Trees are values, so an in-place update of a node reachable twice is not
  captured.
- `colorTree`, `findNodeByChildren`, `assignPhysicalCharacteristics`,
  `createClockSourceNode` and `convertNodesToSinks` are left out. They are
  display colouring, an unused debug search, unfinished work and unused
  helpers, and the engine does not call them.
- The diagnostic counters `zCutCount` and `ZeroSkewMerges` are left out,
  and so is the `dieIndex` field.
- The older `runDBSCANAndAssignClusters` (clusters.hpp:284-300) is left
  out. It is the same pipeline as the modelled one with the older
  clustering pass (`LegacyClustering`), which is modelled on its own.
- Floating point is modelled as exact reals:
  - IEEE rounding, NaN propagation and infinities are not modelled;
  - a NaN `l'` is a failure;
  - `sqrt` is a parameter, assumed to be the square root where a lemma
    needs it.
- Machine integers are unbounded: 32-bit overflow of `int` coordinates,
  sums and the `INT_MAX` arithmetic in Prim's loop is not modelled, and
  neither is `size_t` wrap-around.
- The uninitialised `elmoreDelay` that the merge reads before any delay
  pass is not modelled. A new node's delay is 0.
- Container order: the `unordered_map` of midpoints is a Dafny `map`.
  Ordered `std::map` iteration is modelled as ascending key order.
- The global `clusterMidpoints` is a map passed as an argument.
- Wirelength.CalculateWirelength: does not claim that Prim's tree is
  minimal. It states a spanning tree no longer than the star from sink 0,
  exact for up to two sinks.
- Flow.Synthesizer.AbsTreeGen3D: on a failure (an exception in the source)
  the counter's value afterwards is left unspecified. Nothing uses it
  after a throw.
- Merge.ZeroSkewMerge: returns the corrected length on x < 0, the l' of
  that branch (L with a buffer), not the 0 the code returns there because
  of the shadowed `lPrime` (see Findings). `MergeLengthAsWritten` states
  that this is the only difference. The tree pass discards the length.
- Dme.ComputeCenter: takes no radius argument. `center` accepts the
  radius but never reads it.

## Findings

| source | as written | input that shows it | evidently intended | confidence | as-written member | corrected member |
|---|---|---|---|---|---|---|
| dme.hpp:410-413 | in the `x < 0` branch a new local `lPrime` shadows the function's `lPrime`, so the `return lPrime` at line 497 returns the outer value 0 | `ShadowExample`: child delays 2 and 0, L = 1, unit wire resistance and capacitance, zero loads; the tapping fraction is -1.5, a buffer goes in and l' = L = 1 | return the wire laid from the near child (l', or L with a buffer), as the `x > 1` branch does | high, not executed | Merge.ShadowedLengthDiffers | Merge.ReturnedLengthIsWire |
