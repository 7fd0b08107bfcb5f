/** The greedy degree bucketing of ts.py: the degrees are visited in the
    order deg_node lists them, their nodes are accumulated, and the window
    (low, d) is closed as soon as it holds more than MinDegreeRange nodes; the
    nodes left over at the end form one last window reaching up to
    number_of_nodes() - 1. */
module GreedyRanges {
  import opened Collections
  import opened SignedGraphs
  import opened DegreeRanges

  /** A window is closed once it holds more than this many nodes. */
  const MinDegreeRange := 50

  /** One entry of the resulting dictionary: its (low, high) degree key and
      its nodes. */
  datatype Cluster = Cluster(key: Range, members: seq<int>)

  function DegFn(adj: Adjacency): int -> int {
    n => Deg(adj, n)
  }

  /** deg_node[d]: the nodes of degree d, in node order. */
  function OfDegree(adj: Adjacency, nodes: seq<int>, d: int): seq<int> {
    Filter(nodes, DegFn(adj), d)
  }

  /** The keys of deg_node in insertion order: the degrees of the nodes in
      order of first appearance. */
  function FirstAppearance(adj: Adjacency, nodes: seq<int>): seq<int> {
    if nodes == [] then []
    else
      var seen := FirstAppearance(adj, nodes[..|nodes| - 1]);
      var d := Deg(adj, nodes[|nodes| - 1]);
      if d in seen then seen else seen + [d]
  }

  /** The loop state of the sweep: the windows closed so far, l_range, and
      node_list (count is its length). */
  datatype Sweep = Sweep(closed: seq<Cluster>, low: int, pending: seq<int>)

  /** One degree d of the sweep, whose nodes are batch. */
  function Absorb(s: Sweep, d: int, batch: seq<int>): Sweep {
    var pending := s.pending + batch;
    if |pending| > MinDegreeRange then Sweep(s.closed + [Cluster((s.low, d), pending)], d + 1, [])
    else Sweep(s.closed, s.low, pending)
  }

  /** The sweep over the degrees degs, in order. */
  function SweepOver(adj: Adjacency, nodes: seq<int>, degs: seq<int>): Sweep {
    if degs == [] then Sweep([], 0, [])
    else
      var d := degs[|degs| - 1];
      Absorb(SweepOver(adj, nodes, degs[..|degs| - 1]), d, OfDegree(adj, nodes, d))
  }

  /** After the sweep: a non-empty leftover becomes the window (low, n - 1). */
  function Finish(s: Sweep, n: int): seq<Cluster> {
    if |s.pending| > 0 then s.closed + [Cluster((s.low, n - 1), s.pending)] else s.closed
  }

  /** The windows of get_node_cluster_by_degree_range in ts.py, in the
      order they are created, for the degree order degs. */
  function GreedyClusters(adj: Adjacency, nodes: seq<int>, degs: seq<int>): seq<Cluster> {
    Finish(SweepOver(adj, nodes, degs), |adj|)
  }

  /** The members of all windows, one window after the other. */
  function Members(cs: seq<Cluster>): seq<int> {
    if cs == [] then [] else Members(cs[..|cs| - 1]) + cs[|cs| - 1].members
  }

  function KeysOf(cs: seq<Cluster>): (r: seq<Range>)
    ensures |r| == |cs| && forall i :: 0 <= i < |cs| ==> r[i] == cs[i].key
  {
    seq(|cs|, i requires 0 <= i < |cs| => cs[i].key)
  }

  /** The dictionary the windows are stored in. */
  function ClusterMap(cs: seq<Cluster>): map<Range, seq<int>> {
    if cs == [] then map[] else ClusterMap(cs[..|cs| - 1])[cs[|cs| - 1].key := cs[|cs| - 1].members]
  }

  /** The window keys chain: the first lower bound is 0, every later lower
      bound is the previous upper bound + 1, and low continues the chain. */
  predicate Chained(closed: seq<Cluster>, low: int) {
    && (|closed| > 0 ==> closed[0].key.0 == 0)
    && (forall i :: 0 <= i < |closed| - 1 ==> closed[i + 1].key.0 == closed[i].key.1 + 1)
    && low == (if closed == [] then 0 else closed[|closed| - 1].key.1 + 1)
  }

  predicate NonNegative(degs: seq<int>) {
    forall i :: 0 <= i < |degs| ==> degs[i] >= 0
  }

  /** A degree is listed in first-appearance order exactly when some node
      has it. */
  lemma {:induction false} FirstAppearanceMembers(adj: Adjacency, nodes: seq<int>, d: int)
    ensures d in FirstAppearance(adj, nodes) <==> OfDegree(adj, nodes, d) != []
  {
    if nodes != [] {
      var init := nodes[..|nodes| - 1];
      FirstAppearanceMembers(adj, init, d);
    }
  }

  /** The first-appearance order lists every degree once. */
  lemma {:induction false} FirstAppearanceDistinct(adj: Adjacency, nodes: seq<int>)
    ensures Distinct(FirstAppearance(adj, nodes))
    ensures forall n :: n in nodes ==> Deg(adj, n) in FirstAppearance(adj, nodes)
    ensures forall d :: d in FirstAppearance(adj, nodes) ==> d >= 0
  {
    if nodes != [] {
      var init := nodes[..|nodes| - 1];
      FirstAppearanceDistinct(adj, init);
      assert nodes == init + [nodes[|nodes| - 1]];
    }
  }

  lemma SweepOverSnoc(adj: Adjacency, nodes: seq<int>, degs: seq<int>, t: nat)
    requires t < |degs|
    ensures SweepOver(adj, nodes, degs[..t + 1]) ==
      Absorb(SweepOver(adj, nodes, degs[..t]), degs[t], OfDegree(adj, nodes, degs[t]))
  {
    assert degs[..t + 1][..t] == degs[..t];
  }

  /** Every closed window holds more than MinDegreeRange nodes and the
      pending list at most that many. */
  ghost predicate SizesShape(s: Sweep) {
    && (forall c :: c in s.closed ==> |c.members| > MinDegreeRange)
    && |s.pending| <= MinDegreeRange
  }

  /** Closed and pending nodes together are the nodes grouped by degree in
      the order of degs. */
  ghost predicate ContentShape(adj: Adjacency, nodes: seq<int>, degs: seq<int>, s: Sweep) {
    Members(s.closed) + s.pending == FilterAll(nodes, DegFn(adj), degs)
  }

  /** The keys chain, and the upper bounds are distinct, non-negative
      members of degs. */
  ghost predicate KeyShape(degs: seq<int>, s: Sweep) {
    && Chained(s.closed, s.low)
    && (forall c :: c in s.closed ==> c.key.1 in degs && c.key.1 >= 0)
    && (forall i, j :: 0 <= i < j < |s.closed| ==> s.closed[i].key.1 != s.closed[j].key.1)
  }

  /** The invariants of the sweep over degs. */
  ghost predicate SweepShape(adj: Adjacency, nodes: seq<int>, degs: seq<int>, s: Sweep) {
    SizesShape(s) && ContentShape(adj, nodes, degs, s) && KeyShape(degs, s)
  }

  lemma AbsorbSizes(s: Sweep, d: int, batch: seq<int>)
    requires SizesShape(s)
    ensures SizesShape(Absorb(s, d, batch))
  {
    if |s.pending + batch| > MinDegreeRange {
      var c := Cluster((s.low, d), s.pending + batch);
      assert forall x :: x in s.closed + [c] ==> x in s.closed || x == c;
    }
  }

  lemma AbsorbContents(adj: Adjacency, nodes: seq<int>, degs: seq<int>, d: int, s: Sweep)
    requires ContentShape(adj, nodes, degs, s)
    ensures ContentShape(adj, nodes, degs + [d], Absorb(s, d, OfDegree(adj, nodes, d)))
  {
    var batch := OfDegree(adj, nodes, d);
    assert (degs + [d])[..|degs|] == degs;
    assert FilterAll(nodes, DegFn(adj), degs + [d]) == FilterAll(nodes, DegFn(adj), degs) + batch;
    if |s.pending + batch| > MinDegreeRange {
      var c := Cluster((s.low, d), s.pending + batch);
      assert Members(s.closed + [c]) == Members(s.closed) + c.members by {
        assert (s.closed + [c])[..|s.closed|] == s.closed;
      }
    }
  }

  lemma AbsorbKeys(degs: seq<int>, d: int, s: Sweep, batch: seq<int>)
    requires KeyShape(degs, s) && d !in degs && d >= 0
    ensures KeyShape(degs + [d], Absorb(s, d, batch))
  {
    if |s.pending + batch| > MinDegreeRange {
      var c := Cluster((s.low, d), s.pending + batch);
      var cs := s.closed + [c];
      assert cs[|s.closed|] == c;
      assert forall i :: 0 <= i < |s.closed| ==> cs[i] == s.closed[i];
      assert forall x :: x in cs ==> x in s.closed || x == c;
    }
  }

  lemma AbsorbKeeps(adj: Adjacency, nodes: seq<int>, degs: seq<int>, d: int, s: Sweep)
    requires SweepShape(adj, nodes, degs, s) && d !in degs && d >= 0
    ensures SweepShape(adj, nodes, degs + [d], Absorb(s, d, OfDegree(adj, nodes, d)))
  {
    AbsorbSizes(s, d, OfDegree(adj, nodes, d));
    AbsorbContents(adj, nodes, degs, d, s);
    AbsorbKeys(degs, d, s, OfDegree(adj, nodes, d));
  }

  lemma {:induction false} SweepInvariant(adj: Adjacency, nodes: seq<int>, degs: seq<int>)
    requires Distinct(degs) && NonNegative(degs)
    ensures SweepShape(adj, nodes, degs, SweepOver(adj, nodes, degs))
  {
    if degs != [] {
      var init, d := degs[..|degs| - 1], degs[|degs| - 1];
      assert degs == init + [d];
      SweepInvariant(adj, nodes, init);
      AbsorbKeeps(adj, nodes, init, d, SweepOver(adj, nodes, init));
    }
  }

  predicate Increasing(degs: seq<int>) {
    forall i, j :: 0 <= i < j < |degs| ==> degs[i] < degs[j]
  }

  /** With the degrees swept in increasing order: every node of a closed
      window has a degree within the window's key, every pending node a
      degree of at least low that was already swept, and low does not run
      ahead of the last degree swept. */
  ghost predicate WindowShape(adj: Adjacency, nodes: seq<int>, degs: seq<int>, s: Sweep) {
    && (forall c, n :: c in s.closed && n in c.members ==> c.key.0 <= Deg(adj, n) <= c.key.1)
    && (forall n :: n in s.pending ==> n in nodes && s.low <= Deg(adj, n) && Deg(adj, n) in degs)
    && (s.low == 0 || (degs != [] && s.low <= degs[|degs| - 1] + 1))
  }

  lemma AbsorbWindows(adj: Adjacency, nodes: seq<int>, degs: seq<int>, d: int, s: Sweep)
    requires WindowShape(adj, nodes, degs, s) && Increasing(degs + [d]) && d >= 0
    ensures WindowShape(adj, nodes, degs + [d], Absorb(s, d, OfDegree(adj, nodes, d)))
  {
    var batch := OfDegree(adj, nodes, d);
    forall n | n in batch
      ensures n in nodes && Deg(adj, n) == d
    {
      FilterMembers(nodes, DegFn(adj), d, n);
    }
    forall x | x in degs
      ensures x < d
    {
      var i :| 0 <= i < |degs| && degs[i] == x;
      assert (degs + [d])[i] == x && (degs + [d])[|degs|] == d;
    }
    if degs != [] {
      assert (degs + [d])[|degs| - 1] == degs[|degs| - 1];
    }
  }

  lemma {:induction false} SweepWindows(adj: Adjacency, nodes: seq<int>, degs: seq<int>)
    requires Increasing(degs) && NonNegative(degs)
    ensures WindowShape(adj, nodes, degs, SweepOver(adj, nodes, degs))
  {
    if degs != [] {
      var init, d := degs[..|degs| - 1], degs[|degs| - 1];
      assert degs == init + [d];
      SweepWindows(adj, nodes, init);
      AbsorbWindows(adj, nodes, init, d, SweepOver(adj, nodes, init));
    }
  }

  /** When the degrees are swept in increasing order, every window holds
      only nodes whose degree lies within its key (low, high); for the
      leftover window this rests on no degree exceeding the node count - 1. */
  lemma GreedyWindows(adj: Adjacency, nodes: seq<int>, degs: seq<int>)
    requires WellFormed(adj) && forall n :: n in nodes ==> n in adj
    requires Increasing(degs) && NonNegative(degs)
    ensures var cs := GreedyClusters(adj, nodes, degs);
      forall i, n :: 0 <= i < |cs| && n in cs[i].members ==> cs[i].key.0 <= Deg(adj, n) <= cs[i].key.1
  {
    var s := SweepOver(adj, nodes, degs);
    SweepWindows(adj, nodes, degs);
    var cs := GreedyClusters(adj, nodes, degs);
    forall i, n | 0 <= i < |cs| && n in cs[i].members
      ensures cs[i].key.0 <= Deg(adj, n) <= cs[i].key.1
    {
      if i < |s.closed| {
        assert s.closed[i] in s.closed;
      } else {
        DegBelowOrder(adj, n);
      }
    }
  }

  /** Together the windows hold every node exactly once: their members,
      concatenated, rearrange the node list, so the window sizes sum to the
      node count. */
  lemma GreedyPartition(adj: Adjacency, nodes: seq<int>, degs: seq<int>)
    requires Distinct(degs) && NonNegative(degs)
    requires forall n :: n in nodes ==> Deg(adj, n) in degs
    ensures multiset(Members(GreedyClusters(adj, nodes, degs))) == multiset(nodes)
    ensures |Members(GreedyClusters(adj, nodes, degs))| == |nodes|
  {
    var s := SweepOver(adj, nodes, degs);
    SweepInvariant(adj, nodes, degs);
    FilterAllPermutes(nodes, DegFn(adj), degs);
    var cs := GreedyClusters(adj, nodes, degs);
    if |s.pending| > 0 {
      assert cs[..|s.closed|] == s.closed;
    }
    assert Members(cs) == FilterAll(nodes, DegFn(adj), degs);
  }

  /** The windows closed inside the loop hold more than MinDegreeRange nodes;
      the only other window is the leftover, created only when it is not
      empty, holding at most MinDegreeRange nodes and keyed (low, n - 1) with
      n the number of nodes. */
  lemma GreedySizes(adj: Adjacency, nodes: seq<int>, degs: seq<int>)
    requires Distinct(degs) && NonNegative(degs)
    ensures var s := SweepOver(adj, nodes, degs);
      && (forall c :: c in s.closed ==> |c.members| > MinDegreeRange)
      && (GreedyClusters(adj, nodes, degs) == s.closed ||
          (GreedyClusters(adj, nodes, degs) == s.closed + [Cluster((s.low, |adj| - 1), s.pending)] &&
           0 < |s.pending| <= MinDegreeRange))
  {
    SweepInvariant(adj, nodes, degs);
  }

  /** The keys of the windows: the first lower bound is 0, every later
      lower bound is the previous upper bound + 1, and no key is used twice,
      so no window overwrites another in the dictionary. */
  lemma GreedyKeys(adj: Adjacency, nodes: seq<int>, degs: seq<int>)
    requires Distinct(degs) && NonNegative(degs)
    ensures var cs := GreedyClusters(adj, nodes, degs);
      && (|cs| > 0 ==> cs[0].key.0 == 0)
      && (forall i :: 0 <= i < |cs| - 1 ==> cs[i + 1].key.0 == cs[i].key.1 + 1)
      && Distinct(KeysOf(cs))
  {
    var s := SweepOver(adj, nodes, degs);
    SweepInvariant(adj, nodes, degs);
    var cs := GreedyClusters(adj, nodes, degs);
    var n := |s.closed|;
    forall i, j | 0 <= i < j < |cs|
      ensures cs[i].key != cs[j].key
    {
      if j < n {
        assert s.closed[i].key.1 != s.closed[j].key.1;
      } else if i > 0 {
        assert cs[i].key.0 == s.closed[i - 1].key.1 + 1;
        assert s.closed[i - 1].key.1 != s.closed[n - 1].key.1;
      } else {
        assert s.closed[n - 1] in s.closed;
      }
    }
  }

  /** Insertion order, the order a dictionary that keeps it iterates
      deg_node in, lists the degrees. */
  lemma InsertionOrderListsDegrees(adj: Adjacency, nodes: seq<int>)
    ensures ListsDegrees(adj, nodes, FirstAppearance(adj, nodes))
  {
    FirstAppearanceDistinct(adj, nodes);
    forall d | d in FirstAppearance(adj, nodes)
      ensures OfDegree(adj, nodes, d) != []
    {
      FirstAppearanceMembers(adj, nodes, d);
    }
  }

  /** Whatever order deg_node is iterated in, the windows partition the
      nodes and their keys are distinct. */
  lemma AnyOrderWindows(adj: Adjacency, nodes: seq<int>, degs: seq<int>)
    requires ListsDegrees(adj, nodes, degs)
    ensures multiset(Members(GreedyClusters(adj, nodes, degs))) == multiset(nodes)
    ensures Distinct(KeysOf(GreedyClusters(adj, nodes, degs)))
  {
    assert NonNegative(degs) by {
      forall i | 0 <= i < |degs|
        ensures degs[i] >= 0
      {
        var d := degs[i];
        assert d in degs;
        var n := OfDegree(adj, nodes, d)[0];
        FilterMembers(nodes, DegFn(adj), d, n);
      }
    }
    GreedyPartition(adj, nodes, degs);
    GreedyKeys(adj, nodes, degs);
  }

  /** With distinct keys, the dictionary holds every window under its key. */
  lemma {:induction false} ClusterMapEntries(cs: seq<Cluster>)
    requires Distinct(KeysOf(cs))
    ensures ClusterMap(cs).Keys == set c | c in cs :: c.key
    ensures forall i :: 0 <= i < |cs| ==> ClusterMap(cs)[cs[i].key] == cs[i].members
  {
    if cs != [] {
      var init := cs[..|cs| - 1];
      assert Distinct(KeysOf(init)) by {
        forall i, j | 0 <= i < j < |init|
          ensures KeysOf(init)[i] != KeysOf(init)[j]
        {
          assert KeysOf(cs)[i] != KeysOf(cs)[j];
        }
      }
      ClusterMapEntries(init);
      forall i | 0 <= i < |init|
        ensures cs[i].key != cs[|cs| - 1].key
      {
        assert KeysOf(cs)[i] != KeysOf(cs)[|cs| - 1];
      }
      assert cs == init + [cs[|cs| - 1]];
    }
  }

  /** The loop of deg_node: every node is appended under its degree, and the
      degrees become keys in order of first appearance. */
  method NodesByDegree(g: SignedGraph) returns (degNode: map<int, seq<int>>, order: seq<int>)
    ensures order == FirstAppearance(g.adj, g.nodes)
    ensures forall d :: d in degNode <==> d in order
    ensures forall d :: d in degNode ==> degNode[d] == OfDegree(g.adj, g.nodes, d)
  {
    var adj, nodes := g.adj, g.nodes;
    degNode, order := map[], [];
    for i := 0 to |nodes|
      invariant order == FirstAppearance(adj, nodes[..i])
      invariant forall d :: d in degNode <==> d in order
      invariant forall d :: d in degNode ==> degNode[d] == OfDegree(adj, nodes[..i], d)
    {
      var n := nodes[i];
      var d := Deg(adj, n);
      assert nodes[..i + 1][..i] == nodes[..i];
      if d !in degNode {
        FirstAppearanceMembers(adj, nodes[..i], d);
        degNode := degNode[d := []];
        order := order + [d];
      }
      degNode := degNode[d := degNode[d] + [n]];
    }
    assert nodes[..|nodes|] == nodes;
  }

  /** order lists the keys of deg_node, each once: the degrees that some
      node has. */
  predicate ListsDegrees(adj: Adjacency, nodes: seq<int>, order: seq<int>) {
    && Distinct(order)
    && (forall d :: d in order ==> OfDegree(adj, nodes, d) != [])
    && (forall n :: n in nodes ==> Deg(adj, n) in order)
  }

  /** One pass of the loop of get_node_cluster_by_degree_range: the nodes
      of degree d are appended to node_list one by one, and the window is
      closed once count exceeds MinDegreeRange. */
  method AbsorbDegree(closed: seq<Cluster>, low: int, pending: seq<int>, count: int, d: int, batch: seq<int>)
    returns (closed': seq<Cluster>, low': int, pending': seq<int>, count': int)
    requires count == |pending|
    ensures Sweep(closed', low', pending') == Absorb(Sweep(closed, low, pending), d, batch)
    ensures count' == |pending'|
  {
    closed', low', pending' := closed, low, pending;
    for k := 0 to |batch|
      invariant pending' == pending + batch[..k]
    {
      assert batch[..k + 1] == batch[..k] + [batch[k]];
      pending' := pending' + [batch[k]];
    }
    assert batch[..|batch|] == batch;
    count' := count + |batch|;
    if count' > MinDegreeRange {
      closed' := closed' + [Cluster((low', d), pending')];
      pending' := [];
      low' := d + 1;
      count' := 0;
    }
  }

  /** get_node_cluster_by_degree_range of ts.py, visiting the keys of
      deg_node in the iteration order order. */
  method GreedyBuckets(g: SignedGraph, order: seq<int>) returns (clusters: seq<Cluster>)
    requires ListsDegrees(g.adj, g.nodes, order)
    ensures clusters == GreedyClusters(g.adj, g.nodes, order)
  {
    var degNode, inserted := NodesByDegree(g);
    forall d | d in order
      ensures d in degNode
    {
      FirstAppearanceMembers(g.adj, g.nodes, d);
    }
    var count := 0;
    var low := 0;
    var pending: seq<int> := [];
    clusters := [];
    for t := 0 to |order|
      invariant Sweep(clusters, low, pending) == SweepOver(g.adj, g.nodes, order[..t])
      invariant count == |pending|
    {
      var d := order[t];
      SweepOverSnoc(g.adj, g.nodes, order, t);
      var batch := degNode[d];
      assert batch == OfDegree(g.adj, g.nodes, d);
      clusters, low, pending, count := AbsorbDegree(clusters, low, pending, count, d, batch);
    }
    assert order[..|order|] == order;
    if count > 0 {
      clusters := clusters + [Cluster((low, |g.adj| - 1), pending)];
    }
  }
}
