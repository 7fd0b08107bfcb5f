# Leave-one-out signed-edge features, modelled in Dafny

This project models the feature engine of a signed-link prediction study on
an undirected signed graph, where every edge carries the sign +1 (trust) or
-1 (distrust). The engine has four stages:

* **Degree buckets.** Nodes are grouped by degree. `util.py` uses configured
  `(low, high)` ranges and the first range that reaches the degree.
  `ts.py` builds the windows greedily: it sweeps the degrees and closes a
  window once it holds more than 50 nodes.
* **Candidates.** The candidate edges are enumerated inside each bucket
  (every pair `i < j` that is an edge) and across buckets (every edge whose
  ends fall in different ranges). A per-node histogram of neighbours by
  range is also built.
* **Leave-one-out features.** Every candidate is removed from the shared
  graph. Its features are computed on what remains, and then it is added
  back with its own sign:
  * path features over the shortest paths: the mean signed length and the
    mean random-walk weight;
  * clustering features: the Jaccard ratio of the two neighbourhoods, the
    fraction of balanced triangles and the net agreement of common
    neighbours.
* **Collection.**
  * `util.py` keeps at most `GROUP_LIM + 1` records per class. A class is
    the pair of range indices, in increasing order, together with the sign.
  * `ts.py` keeps every candidate and routes its four features to a
    positive or a negative sink.

The graph is a class `SignedGraphs.SignedGraph` whose adjacency map the
drivers change in place, through `RemoveEdge` and `AddEdge`.

Every loop of util.py and ts.py is a Dafny method, proved against a function that
specifies its result:

| method | specification |
|---|---|
| `RangeIndex` | `FirstReaching` |
| `IntraGroupPairs` | `IntraPairs` |
| `PathProps` | `PathFeatures` |
| `CountTriangles` | `CountsOf` |
| `LeaveOneOut` | `Features` |
| `PropertiesByGroup` | `SampleGroups` |
| `GreedyBuckets` | `GreedyClusters` |
| `PropertiesBySign` | `Sink` |

The lemmas then prove what the code promises about those functions:
partitions, bounds, the sampling cap, key chains and sign routing.

The networkx shortest-path search is a parameter `search` of type
`PathSearch`. It returns either `NoPath` or `Found(length, paths)`. The
drivers require `Honest(search)`: every reported path is a walk from the
source to the target in the graph it was asked about. The constants
`GROUP_LIM`, `INVALID_NO` and `MIN_PATH_LEN` are the fields of a `Config`
value. Where a dictionary's iteration order matters (the groups of the
drivers, the degrees of `ts.py`), that order is an explicit sequence of
keys.

The drivers take the feature function as a ghost parameter `feat`:

* `PropertiesByGroup` requires `Probes(feat, ...)`, which says that `feat`
  gives every candidate its `Features` on the graph.
* `FeatFnProbes` shows that `FeatFn` is such a function.
* `ts.py` has the same arrangement: `Probes4`, `FeatFn4` and `FeatFn4Probes`.

Three behaviours of the code worth noting:

* The signed path length divides the sum of the edge signs by the number
  of **nodes** on the path (`len(p)`), not by the number of edges. That is
  why each per-path term lies strictly between -1 and 1.
* The sampling gate skips a candidate only when its class count is
  **greater** than `GROUP_LIM`. A class therefore receives up to
  `GROUP_LIM + 1` records, not `GROUP_LIM`.
* The clustering "union" is the neighbourhood of the second endpoint only.
  `G.neighbors` returns a one-shot iterator; the intersection list uses up
  the one over the first endpoint's neighbours, so the set built from it
  afterwards is empty. The model forms the union the same way
  (`UnionAsWritten`); see "## Findings".

## Model

| member | source | states |
|---|---|---|
| SignedGraphs.Removed | util.py:126 | removing an edge keeps the set of nodes |
| SignedGraphs.WithEdge | util.py:135 | adding an edge keeps the set of nodes |
| SignedGraphs.RemovedWellFormed | util.py:126 | removing an edge keeps the graph symmetric and free of loops; exactly (u, v) and (v, u) disappear; every other edge keeps its sign |
| SignedGraphs.AddedWellFormed | util.py:135 | adding a signed edge between two distinct nodes keeps the graph well formed |
| SignedGraphs.RestoreEdge | util.py:126-135 | removing an edge and adding it back with its own sign gives back exactly the original graph |
| SignedGraphs.DegBelowOrder | ts.py:30 | in a loop-free graph of n nodes, no degree exceeds n - 1 |
| SignedGraphs.SignedGraph.RemoveEdge | util.py:126 | `G.remove_edge`: the graph stays valid, node order is kept, and the adjacency becomes `Removed` |
| SignedGraphs.SignedGraph.AddEdge | util.py:135 | `G.add_edge(..., sign=s)`: the graph stays valid and the adjacency becomes `WithEdge` |
| DegreeRanges.FirstReachingLeast | util.py:7-11 | the lookup gives the least index whose upper bound is at least the degree, and every earlier range ends below it; None exactly when no range reaches the degree (get_range_index's IndexError) |
| DegreeRanges.RangeIndex | util.py:7-11 | the forward-scanning while loop returns `FirstReaching` |
| DegreeRanges.EmptyBuckets | util.py:20 | every configured range becomes a key holding the empty list, and there are no other keys |
| DegreeRanges.BucketStep | util.py:21 | appending a node to the bucket of its first reaching range keeps every bucket equal to the nodes so far whose first reaching range it is |
| DegreeRanges.BucketByRange | util.py:13-22 | None exactly when some node's degree is beyond every range; otherwise every configured range is a key, even an empty one, and holds, in node order, the nodes whose first reaching range it is |
| DegreeRanges.BucketsPartitionNodes | util.py:20-21 | for distinct ranges covering every degree, the buckets together rearrange the node list, so their sizes sum to the node count |
| DegreeRanges.TallyStep | util.py:153-154 | counting one more neighbour raises exactly one slot by one, the slot of its range, and keeps the slot sum equal to the number counted |
| DegreeRanges.RowFromTally | util.py:150-155 | once all neighbours are tallied, [node, degree] followed by the slots is a histogram row whose counts sum to the degree |
| DegreeRanges.NeighbourHistogram | util.py:150-155 | None exactly when a neighbour's degree is beyond every range; otherwise the row is [node, degree, c_0 .. c_{n-1}], of length len(ranges) + 2, with c_k the number of neighbours in range k, and the c's sum to the degree |
| DegreeRanges.InterClusterProps | util.py:143-157 | None exactly when some row of some range's bucket fails; otherwise there is one list per range, holding one histogram row per bucket node, in order |
| Candidates.RowPairsMembers | util.py:35-44 | a triple is in row i up to j exactly when it is (nodes[i], nodes[j'], sign) for some i < j' < j and that pair is an edge carrying that sign |
| Candidates.RowsBeforeMembers | util.py:34-44 | the rows before i hold exactly the signed edges (nodes[i'], nodes[j']) with i' < i and i' < j' |
| Candidates.IntraPairsExactly | util.py:31-44 | a triple is an intra-group candidate exactly when it is (nodes[i], nodes[j], s) for some i < j, the pair is an edge and s is its sign; non-edges are skipped |
| Candidates.GroupPairs | util.py:32-44 | the nested loops over one group return `IntraPairs` of its node list |
| Candidates.IntraGroupPairs | util.py:25-45 | every group key is present and its list is `IntraPairs`, in lexicographic (i, j) order; ts.py:33-53 is the same code |
| Candidates.IntraPairsAreSignedEdges | util.py:41-44 | every intra-group candidate is an edge of the graph carrying its own sign |
| Candidates.CrossPairsMembers | util.py:164-171 | a triple is an inter-group candidate exactly when it is a listed edge, in its listed orientation, whose ends fall in different ranges, carrying that edge's sign |
| Candidates.InterGroupPairs | util.py:160-172 | None exactly when some listed endpoint degree is beyond every range; otherwise a single list under key 0, holding `CrossPairs` in listing order |
| Candidates.CrossPairsComplete | util.py:165-169 | when the listing holds every edge in one orientation, every edge between different ranges is an inter-group candidate with its sign |
| EdgeFeatures.WalkDegrees | util.py:67 | every node on a walk has degree at least 1, so 1/deg is defined |
| EdgeFeatures.WalkSums | util.py:66-69 | for one walk, the sum of 1/deg over its nodes and the sum of the signs of its edges |
| EdgeFeatures.PathProps | util.py:61-72 | the loop over paths returns `PathFeatures`: the mean signed length and the mean walk weight, or the fallback for both when there are no paths |
| EdgeFeatures.SignSumBound | util.py:68-69 | the sign sum of the len(p) - 1 edges of a path lies in [-(len(p) - 1), len(p) - 1] |
| EdgeFeatures.InvDegreeSumBound | util.py:67 | on nodes of degree at least 1, the sum of 1/deg lies in (0, len(p)] |
| EdgeFeatures.PathTermBounds | util.py:70-71 | each path's signed length lies strictly between -1 and 1, and its walk weight lies in (0, 1] |
| EdgeFeatures.TotalBounds | util.py:64-71 | over n paths, the summed signed lengths lie in (-n, n) and the summed walk weights in (0, n] |
| EdgeFeatures.PathFeatureBounds | util.py:72 | with no paths both features are the fallback; otherwise the signed length lies in (-1, 1) and the walk weight in (0, 1] |
| EdgeFeatures.BalancedIffPositiveProduct | util.py:97-98 | for signs ±1, the sum test (3 or -1) holds exactly when the product of the three signs is +1 |
| EdgeFeatures.AgreeStep | util.py:104-111 | one more common neighbour raises the count of neighbours agreeing on sign t by one exactly when both of its edges carry t |
| EdgeFeatures.CountBalanced | util.py:91-98 | the loop counts the common neighbours that close a balanced triangle; the raise at line 96 is unreachable |
| EdgeFeatures.CountAgreeing | util.py:102-111 | pos_x and neg_x count the common neighbours joined to both ends positively and negatively |
| EdgeFeatures.CountTriangles | util.py:82-111 | the counts are those of `CountsOf`: the common neighbours, the union as formed (the second endpoint's neighbourhood, the first endpoint's iterator being exhausted), the balanced triangles, and the agreeing neighbours |
| EdgeFeatures.CountsOrdered | util.py:85-111 | balanced <= common, pos + neg <= common, and common <= union, the union formed being the second endpoint's neighbourhood |
| EdgeFeatures.HeldOutNeighbourhood | util.py:82-87 | with the edge (u, v) held out, the common neighbours are those of the full graph, and the union formed is v's neighbourhood without u, of size deg(v) - 1 |
| EdgeFeatures.UnionAsWrittenLosesFirstEnd | util.py:82-89 | on edges 1-2, 1-3, 1-4, 2-3 with 1-2 held out, the union formed gives Jaccard 1.0 where both neighbourhoods give 0.5, and the union changes when the ends are swapped |
| EdgeFeatures.IntendedCountsSymmetric | util.py:77-78 | with the described union N(a) ∪ N(b), all five counts (common, union, balanced, positive and negative agreement) do not depend on which end is named first, common <= union, and that union is at least the one formed |
| EdgeFeatures.Ratio | util.py:88-89 | the fallback when the denominator is 0; in [0, 1] when 0 <= num <= den; in [-1, 1] when \|num\| <= den |
| GroupSampling.LeaveOneOut | util.py:126-135 | the graph is left exactly as it was, and the properties are `Features` of the candidate on the graph with it held out, the clustering union being the one the code forms |
| GroupSampling.FeatFnProbes | util.py:126-134 | `FeatFn` gives every candidate its held-out features, as the drivers require |
| GroupSampling.ClassFnClassifies | util.py:120-123 | `ClassFn` gives every candidate its class |
| GroupSampling.ClassKey | util.py:120-123 | None exactly when an endpoint degree is beyond every range; otherwise the class (min range index, max range index, sign) |
| GroupSampling.Probe | util.py:126-138 | `LeaveOneOut` seen through `feat`: the graph is unchanged and the result is `feat(e)` |
| GroupSampling.Visit | util.py:120-139 | one candidate: None exactly when it is not covered; otherwise the state after `Admit`, with the graph unchanged |
| GroupSampling.SampleGroup | util.py:119-139 | one group: None exactly when some candidate is not covered; otherwise `Sample` of the group from the given counter, every candidate covered, with the graph unchanged |
| GroupSampling.PropertiesByGroup | util.py:115-140 | None exactly when some candidate is not covered; otherwise `SampleGroups` in key order; in both cases the graph is left as it was |
| GroupSampling.SampleGrows | util.py:139 | class counts never go down |
| GroupSampling.SampleCap | util.py:124 | a class count that starts at most GROUP_LIM + 1 stays at most GROUP_LIM + 1 |
| GroupSampling.SampleTally | util.py:136-139 | the records of a class number exactly the rise of its count: one count per record |
| GroupSampling.SampleRecords | util.py:119-139 | every record is a candidate with its own features, and a candidate without a record belongs to a class already above the limit |
| GroupSampling.SampleGroupsCap | util.py:115-139 | over all groups, each class has exactly as many records as its final count, and at most GROUP_LIM + 1 |
| GroupSampling.HeldOutEdgeUnused | util.py:126-130 | no path found with the edge held out walks along the held-out edge |
| GroupSampling.PathPartBounds | util.py:127-133 | about `PathPart`, the length gate and sentinel of the driver: for an honest search on a well-formed graph the path features are INVALID_NO, or lie in (-1, 1) and (0, 1] |
| GroupSampling.Clustering | util.py:88-112 | each ratio is INVALID_NO where its denominator (union or common) is 0; for consistent counts the Jaccard and balanced fractions lie in [0, 1] and the agreement in [-1, 1]; with a sentinel outside [-1, 1], a ratio is INVALID_NO exactly when its denominator is 0 |
| GroupSampling.FeatureBounds | util.py:126-134 | the five features of a held-out edge each take the sentinel or stay within their bounds |
| GreedyRanges.FirstAppearanceMembers | ts.py:12-14 | a degree becomes a key of deg_node exactly when some node has it |
| GreedyRanges.FirstAppearanceDistinct | ts.py:12-14 | the keys in insertion order are distinct, non-negative, and include every node's degree |
| GreedyRanges.NodesByDegree | ts.py:12-14 | deg_node[d] holds, in node order, the nodes of degree d, and its keys are the degrees that occur, in insertion order |
| GreedyRanges.AbsorbSizes | ts.py:21-28 | one degree of the sweep keeps closed windows above 50 nodes and the pending list at 50 or fewer |
| GreedyRanges.AbsorbContents | ts.py:21-28 | one degree of the sweep keeps closed plus pending nodes equal to the nodes grouped by the degrees swept so far |
| GreedyRanges.AbsorbKeys | ts.py:24-28 | one new degree keeps the window keys chained, with distinct, non-negative upper bounds drawn from the swept degrees |
| GreedyRanges.AbsorbKeeps | ts.py:20-28 | one degree of the sweep keeps its invariants: closed windows hold more than 50 nodes, at most 50 nodes are pending, closed plus pending nodes are the nodes grouped by degree, the keys chain, and the upper bounds are distinct |
| GreedyRanges.SweepInvariant | ts.py:16-28 | the sweep invariants hold after any distinct sequence of non-negative degrees |
| GreedyRanges.AbsorbWindows | ts.py:20-28 | with increasing degrees, one sweep step keeps every node's degree within its window |
| GreedyRanges.SweepWindows | ts.py:16-28 | the window invariant holds after any increasing sweep |
| GreedyRanges.GreedyPartition | ts.py:12-30 | every node lands in exactly one window: the windows' members rearrange the node list, and the window sizes sum to the node count |
| GreedyRanges.GreedySizes | ts.py:23-30 | windows closed in the loop hold more than 50 nodes; the only other window is the leftover, created only when non-empty, holding at most 50 nodes, and keyed (low, number_of_nodes() - 1) |
| GreedyRanges.GreedyKeys | ts.py:17-30 | the first lower bound is 0, each later lower bound is the previous upper bound + 1, and no key repeats |
| GreedyRanges.GreedyWindows | ts.py:6-31 | when degrees are swept in increasing order, every node's degree lies within its window's key |
| GreedyRanges.InsertionOrderListsDegrees | ts.py:12-20 | insertion order lists each occurring degree exactly once |
| GreedyRanges.AnyOrderWindows | ts.py:20-30 | for any iteration order of deg_node, the windows partition the nodes and their keys are distinct |
| GreedyRanges.ClusterMapEntries | ts.py:25-30 | with distinct keys, the dictionary's keys are exactly the windows' keys, and each key holds its own window's nodes |
| GreedyRanges.AbsorbDegree | ts.py:21-28 | one pass of the outer loop: appending the nodes of one degree and closing the window once the count exceeds 50 is `Absorb` of the sweep state |
| GreedyRanges.GreedyBuckets | ts.py:6-31 | for the iteration order of deg_node, the windows are those of `GreedyClusters` |
| SignRouting.FeatFn4Probes | ts.py:113-120 | `FeatFn4` gives every candidate its held-out features |
| SignRouting.Sink | ts.py:121-128 | a sink receives at most one record per visited candidate |
| SignRouting.Clustering2 | ts.py:88-105 | both features are fractions in [0, 1]; the Jaccard ratio is 0.0 when the union formed (the second endpoint's neighbourhood) is empty, the balanced fraction 0.0 with no common neighbour |
| SignRouting.ClusteringCoeff | ts.py:80-105 | the method, with the union formed as the code forms it, computes `Clustering2` |
| SignRouting.LeaveOneOutTs | ts.py:113-120 | the graph is left exactly as it was, and the four properties are `Features4` of the candidate held out, the clustering union being the one the code forms |
| SignRouting.Probe4 | ts.py:113-120 | `LeaveOneOutTs` seen through `feat` |
| SignRouting.ProbeGroup | ts.py:112-129 | one group: a 4-tuple per candidate in order, each also appended to the sink of its sign |
| SignRouting.PropertiesBySign | ts.py:107-130 | every group key is present, with one 4-tuple per candidate in enumeration order; each sink receives, in visiting order, the features of the candidates of its sign; the graph is unchanged |
| SignRouting.SinkAppend | ts.py:121-128 | the sinks of two runs of candidates concatenate |
| SignRouting.SinkIsFiltered | ts.py:121-128 | a sink holds the features of exactly the candidates of its sign, in order |
| SignRouting.SinksPartition | ts.py:121-124 | with signs ±1, the two sinks together rearrange the visited candidates |
| SignRouting.SinkSizes | ts.py:121-128 | the two sinks together receive exactly one record per candidate |
| SignRouting.SinkMembers | ts.py:121-124 | a candidate goes to the positive sink exactly when its sign is +1, and to the negative sink exactly when it is -1 |
| SignRouting.PathPart4Bounds | ts.py:114-118 | about `PathPart4`, the path features of ts.py's driver: for an honest search on a well-formed graph they lie in (-1, 1) and [0, 1], and both are 0.0 when there is no path |
| SignRouting.Features4Bounds | ts.py:113-120 | the signed length lies in (-1, 1), and the walk weight, Jaccard and balanced fractions in [0, 1]; every fallback is 0.0 |

## Left out

- The networkx path search (`shortest_path_length` and `all_shortest_paths`) is an input oracle, `search`. Honesty about walks is a precondition; shortest-ness is not modelled.
- `G.degree` and `get_edge_data` are map lookups on the adjacency. `G.neighbors` is the neighbour set, except in `get_clustering_coeff`, where the exhaustion of its iterator is modelled (`UnionAsWritten`).
- Floating point: the features are exact reals, and no rounding claims are made.
- The bare `except:` handlers swallow any error. Only the modelled outcomes are kept: no path, a path that is too long (`util.py`), or paths found.
- The raise in `get_clustering_coeff` (util.py:96, ts.py:100) is proved unreachable: every common neighbour is joined to both ends. The graph is therefore restored after every candidate.
- Self-loops are excluded by the graph invariant. networkx would count a self-loop twice in a degree.
- Graphs are simple. A parallel edge cannot be expressed in the map model.
- `remove_edge` on an absent edge: every candidate is required to be an edge carrying its own sign, which both enumerations guarantee (`IntraPairsAreSignedEdges`, `CrossPairsMembers`).
- When an edge is re-added, networkx may order it differently among the node's neighbours. Neighbourhoods are sets here, so that order is not modelled.
- Dictionary iteration orders are explicit input sequences: the groups in both drivers and the degrees in `ts.py`. Python 2 hash order is not modelled, and `GreedyWindows` assumes increasing order.
- File I/O and string formatting: the writes to `pos.txt` and `neg.txt` are the two output sequences of `PropertiesBySign`. `nx.read_edgelist` and the module-level run (ts.py:134-138) are not part of this model.
- The `conf` module: `GROUP_LIM`, `INVALID_NO` and `MIN_PATH_LEN` are the fields of `Config`, and `ts.py`'s fallback is 0.0.
- Dead code: the unused maximum degree `last` (util.py:18-19) and the unused swap at util.py:168.
- SignRouting.Sink: its own contract states only the size bound. Its meaning, the features of the candidates of one sign, is stated by `SinkIsFiltered`.

## Findings

| source | as written | input that shows it | evidently intended | confidence | as-written member | corrected member |
|---|---|---|---|---|---|---|
| util.py:82-89 | the union is built from the neighbour iterator of the first endpoint after the intersection list has used it up, so it is the second endpoint's neighbourhood alone; the same code is at ts.py:88-93 | edges 1-2, 1-3, 1-4, 2-3, all positive, with 1-2 held out: the Jaccard ratio is 1.0, where both neighbourhoods give 0.5 | the union of both neighbourhoods, as the docstring at util.py:77-78 describes | not executed; rests on `neighbors` returning an iterator, as in networkx 2, which the `for n, d in G.degree()` loops already need | EdgeFeatures.UnionAsWrittenLosesFirstEnd | EdgeFeatures.IntendedCountsSymmetric |

The drivers keep the union as the code forms it (`CountsOf`), since their
features are what the code outputs. `IntendedCounts` holds the described
union, and `IntendedCountsSymmetric` proves its properties.
