/** Degree ranges as util.py configures them: a range lookup by upper bound,
    the partition of the nodes into one bucket per configured range, and the
    per-node histogram of neighbours by range. A degree that no range reaches
    makes get_range_index index past the end of the range list; here every such
    lookup gives None and the failure propagates to the caller. */
module DegreeRanges {
  import opened Collections
  import opened SignedGraphs

  /** An inclusive degree window (lo, hi); the lookup consults only hi. */
  type Range = (int, int)

  /** The index of the first range whose upper bound reaches deg. */
  function FirstReaching(ranges: seq<Range>, deg: int): (r: Option<nat>)
    ensures r.Some? ==> r.value < |ranges|
  {
    if ranges == [] then None
    else if ranges[0].1 >= deg then Some(0)
    else
      match FirstReaching(ranges[1..], deg)
      case None => None
      case Some(i) => Some(i + 1)
  }

  /** The lookup gives the least index whose upper bound reaches deg: that
      range reaches it and every earlier one ends below it; it gives None
      exactly when every range ends below deg. */
  lemma {:induction false} FirstReachingLeast(ranges: seq<Range>, deg: int)
    ensures FirstReaching(ranges, deg).Some? ==>
      ranges[FirstReaching(ranges, deg).value].1 >= deg &&
      forall j :: 0 <= j < FirstReaching(ranges, deg).value ==> ranges[j].1 < deg
    ensures FirstReaching(ranges, deg).None? <==> forall j :: 0 <= j < |ranges| ==> ranges[j].1 < deg
  {
    if ranges != [] && ranges[0].1 < deg {
      var rest := ranges[1..];
      FirstReachingLeast(rest, deg);
      assert forall j :: 1 <= j < |ranges| ==> ranges[j] == rest[j - 1];
    }
  }

  /** get_range_index: scan forward while the current range ends below deg. */
  method RangeIndex(deg: int, ranges: seq<Range>) returns (r: Option<nat>)
    ensures r == FirstReaching(ranges, deg)
  {
    var i := 0;
    while i < |ranges| && ranges[i].1 < deg
      invariant 0 <= i <= |ranges|
      invariant forall j :: 0 <= j < i ==> ranges[j].1 < deg
    {
      i := i + 1;
    }
    FirstReachingLeast(ranges, deg);
    if i == |ranges| {
      // get_range_index evaluates ranges[i] here and raises IndexError
      return None;
    }
    return Some(i);
  }

  /** The bucket key of node n: the range its degree falls in. */
  function NodeKey(adj: Adjacency, ranges: seq<Range>, n: int): Option<Range> {
    match FirstReaching(ranges, Deg(adj, n))
    case None => None
    case Some(i) => Some(ranges[i])
  }

  function KeyFn(adj: Adjacency, ranges: seq<Range>): int -> Option<Range> {
    n => NodeKey(adj, ranges, n)
  }

  /** The bucket keys in the order of the configured ranges. */
  function RangeKeys(ranges: seq<Range>): seq<Option<Range>> {
    seq(|ranges|, i requires 0 <= i < |ranges| => Some(ranges[i]))
  }

  predicate Covered(adj: Adjacency, ranges: seq<Range>, n: int) {
    FirstReaching(ranges, Deg(adj, n)).Some?
  }

  /** The first loop of get_node_cluster_by_degree_range (util.py): an
      empty bucket for every configured range. */
  method EmptyBuckets(ranges: seq<Range>) returns (buckets: map<Range, seq<int>>)
    ensures buckets.Keys == set r | r in ranges
    ensures forall r :: r in buckets ==> buckets[r] == []
  {
    buckets := map[];
    for k := 0 to |ranges|
      invariant buckets.Keys == set r | r in ranges[..k]
      invariant forall r :: r in buckets ==> buckets[r] == []
    {
      PrefixSnoc(ranges, k);
      buckets := buckets[ranges[k] := []];
    }
    assert ranges[..|ranges|] == ranges;
  }

  /** get_node_cluster_by_degree_range (util.py): one bucket per configured
      range, even an empty one, holding in node order the nodes whose degree
      falls in it; None when some degree is beyond every range. */
  method BucketByRange(g: SignedGraph, ranges: seq<Range>) returns (res: Option<map<Range, seq<int>>>)
    ensures res.None? <==> exists n :: n in g.nodes && !Covered(g.adj, ranges, n)
    ensures res.Some? ==> res.value.Keys == set r | r in ranges
    ensures res.Some? ==> forall r :: r in res.value ==>
      res.value[r] == Filter(g.nodes, KeyFn(g.adj, ranges), Some(r))
  {
    var nodes, adj := g.nodes, g.adj;
    var buckets := EmptyBuckets(ranges);
    assert Bucketed(adj, ranges, buckets, nodes[..0]);
    for i := 0 to |nodes|
      invariant Bucketed(adj, ranges, buckets, nodes[..i])
      invariant NodesCovered(adj, ranges, nodes[..i])
    {
      var n := nodes[i];
      PrefixSnoc(nodes, i);
      var idx := RangeIndex(Deg(adj, n), ranges);
      if idx.None? {
        assert n in nodes;
        return None;
      }
      var key := ranges[idx.value];
      BucketStep(adj, ranges, buckets, nodes[..i], n, key);
      buckets := buckets[key := buckets[key] + [n]];
    }
    assert nodes[..|nodes|] == nodes;
    return Some(buckets);
  }

  /** Every configured range is a key, and each holds, in order, the nodes
      of done whose degree falls in it. */
  ghost predicate Bucketed(adj: Adjacency, ranges: seq<Range>, buckets: map<Range, seq<int>>, done: seq<int>) {
    && buckets.Keys == (set r | r in ranges)
    && forall r :: r in buckets ==> buckets[r] == Filter(done, KeyFn(adj, ranges), Some(r))
  }

  predicate NodesCovered(adj: Adjacency, ranges: seq<Range>, done: seq<int>) {
    forall n :: n in done ==> Covered(adj, ranges, n)
  }

  /** Appending node n to the bucket of its range keeps the buckets right
      for the nodes seen so far and n. */
  lemma BucketStep(adj: Adjacency, ranges: seq<Range>, buckets: map<Range, seq<int>>, done: seq<int>, n: int, key: Range)
    requires Bucketed(adj, ranges, buckets, done)
    requires key in ranges && KeyFn(adj, ranges)(n) == Some(key)
    ensures Bucketed(adj, ranges, buckets[key := buckets[key] + [n]], done + [n])
  {
    var f := KeyFn(adj, ranges);
    var next := buckets[key := buckets[key] + [n]];
    forall r | r in next
      ensures next[r] == Filter(done + [n], f, Some(r))
    {
      FilterSnoc(done, n, f, Some(r));
    }
  }

  /** The buckets partition the nodes: listed in range order they hold every
      node exactly as often as the node list does, so with distinct ranges
      the bucket sizes add up to the number of nodes. */
  lemma BucketsPartitionNodes(adj: Adjacency, nodes: seq<int>, ranges: seq<Range>)
    requires Distinct(ranges)
    requires forall n :: n in nodes ==> Covered(adj, ranges, n)
    ensures multiset(FilterAll(nodes, KeyFn(adj, ranges), RangeKeys(ranges))) == multiset(nodes)
    ensures |FilterAll(nodes, KeyFn(adj, ranges), RangeKeys(ranges))| == |nodes|
  {
    var keys := RangeKeys(ranges);
    forall n | n in nodes
      ensures KeyFn(adj, ranges)(n) in keys
    {
      var i := FirstReaching(ranges, Deg(adj, n)).value;
      assert keys[i] == Some(ranges[i]);
    }
    FilterAllPermutes(nodes, KeyFn(adj, ranges), keys);
  }

  /** The neighbours of a node whose degree falls in range k. */
  ghost function Slot(adj: Adjacency, ranges: seq<Range>, xs: set<int>, k: nat): set<int> {
    set x | x in xs && FirstReaching(ranges, Deg(adj, x)) == Some(k)
  }

  /** A row [node, degree, c_0, ..., c_{n-1}] where c_k counts the
      neighbours whose degree falls in range k. */
  ghost predicate HistogramRow(adj: Adjacency, ranges: seq<Range>, n: int, row: seq<int>) {
    && n in adj
    && |row| == |ranges| + 2
    && row[0] == n
    && row[1] == Deg(adj, n)
    && forall k :: 0 <= k < |ranges| ==> row[k + 2] == |Slot(adj, ranges, adj[n].Keys, k)|
  }

  /** A row of get_inter_cluster_props fails when the node is not in the graph or one of
      its neighbours has a degree beyond every range. */
  ghost predicate RowFails(adj: Adjacency, ranges: seq<Range>, n: int) {
    n !in adj || exists x :: x in adj[n] && !Covered(adj, ranges, x)
  }

  /** counts[k] is the number of neighbours in done whose degree falls in
      range k, and the counts add up to the size of done. */
  ghost predicate Tallied(adj: Adjacency, ranges: seq<Range>, done: set<int>, counts: seq<int>) {
    && |counts| == |ranges|
    && (forall k :: 0 <= k < |ranges| ==> counts[k] == |Slot(adj, ranges, done, k)|)
    && Sum(counts) == |done|
  }

  /** Counting one more neighbour x, whose degree falls in range k, adds one
      to slot k and to nothing else. */
  lemma TallyStep(adj: Adjacency, ranges: seq<Range>, done: set<int>, counts: seq<int>, x: int, k: nat)
    requires Tallied(adj, ranges, done, counts)
    requires x !in done && FirstReaching(ranges, Deg(adj, x)) == Some(k)
    ensures Tallied(adj, ranges, done + {x}, counts[k := counts[k] + 1])
  {
    var next := counts[k := counts[k] + 1];
    assert Sum(next) == |done + {x}| by {
      SumIncrement(counts, k);
    }
    forall j | 0 <= j < |ranges|
      ensures next[j] == |Slot(adj, ranges, done + {x}, j)|
    {
      SlotAdd(adj, ranges, done, x, k, j);
      if j == k {
        assert x !in Slot(adj, ranges, done, j);
      }
    }
  }

  lemma SlotAdd(adj: Adjacency, ranges: seq<Range>, done: set<int>, x: int, k: nat, j: nat)
    requires x !in done && FirstReaching(ranges, Deg(adj, x)) == Some(k)
    ensures Slot(adj, ranges, done + {x}, j) ==
      if j == k then Slot(adj, ranges, done, j) + {x} else Slot(adj, ranges, done, j)
  {
  }

  lemma TallyStart(adj: Adjacency, ranges: seq<Range>)
    ensures Tallied(adj, ranges, {}, seq(|ranges|, _ => 0))
  {
    SumZeros(|ranges|);
    forall k | 0 <= k < |ranges|
      ensures Slot(adj, ranges, {}, k) == {}
    {
    }
  }

  /** One row of get_inter_cluster_props: every neighbour adds one to exactly
      one slot, so the slots add up to the node's degree. */
  method NeighbourHistogram(g: SignedGraph, n: int, ranges: seq<Range>) returns (row: Option<seq<int>>)
    requires n in g.adj
    ensures row.None? <==> RowFails(g.adj, ranges, n)
    ensures row.Some? ==> HistogramRow(g.adj, ranges, n, row.value)
    ensures row.Some? ==> Sum(row.value[2..]) == row.value[1]
  {
    var adj := g.adj;
    var counts := seq(|ranges|, _ => 0);
    TallyStart(adj, ranges);
    var rest := adj[n].Keys;
    ghost var done: set<int> := {};
    while rest != {}
      invariant rest + done == adj[n].Keys && rest !! done
      invariant Tallied(adj, ranges, done, counts)
      invariant forall x :: x in done ==> Covered(adj, ranges, x)
      decreases rest
    {
      ghost var some := Pick(rest);
      var x :| x in rest;
      var idx := RangeIndex(Deg(adj, x), ranges);
      if idx.None? {
        assert x in adj[n] && !Covered(adj, ranges, x);
        return None;
      }
      TallyStep(adj, ranges, done, counts, x, idx.value);
      counts := counts[idx.value := counts[idx.value] + 1];
      rest, done := rest - {x}, done + {x};
    }
    assert done == adj[n].Keys;
    var r := [n, Deg(adj, n)] + counts;
    RowFromTally(adj, ranges, n, counts);
    return Some(r);
  }

  /** Once every neighbour is tallied, node, degree and counts make the
      histogram row, and its counts add up to the degree. */
  lemma RowFromTally(adj: Adjacency, ranges: seq<Range>, n: int, counts: seq<int>)
    requires n in adj && Tallied(adj, ranges, adj[n].Keys, counts)
    ensures HistogramRow(adj, ranges, n, [n, Deg(adj, n)] + counts)
    ensures Sum(([n, Deg(adj, n)] + counts)[2..]) == Deg(adj, n)
  {
    var r := [n, Deg(adj, n)] + counts;
    assert r[2..] == counts;
    assert forall k :: 0 <= k < |ranges| ==> r[k + 2] == counts[k];
  }

  /** The bucket of a range, empty when the range is not a key (util.py's
      defaultdict). */
  function BucketAt(buckets: map<Range, seq<int>>, r: Range): seq<int> {
    if r in buckets then buckets[r] else []
  }

  /** rows holds, in order, the histogram row of every node of bucket. */
  ghost predicate BucketRows(adj: Adjacency, ranges: seq<Range>, bucket: seq<int>, rows: seq<seq<int>>) {
    && |rows| == |bucket|
    && forall j :: 0 <= j < |rows| ==>
      HistogramRow(adj, ranges, bucket[j], rows[j]) && Sum(rows[j][2..]) == rows[j][1]
  }

  ghost predicate BucketFails(adj: Adjacency, ranges: seq<Range>, bucket: seq<int>) {
    exists j :: 0 <= j < |bucket| && RowFails(adj, ranges, bucket[j])
  }

  /** get_inter_cluster_props: for each range in order, one histogram row per
      node of its bucket; None when some row fails. */
  method InterClusterProps(g: SignedGraph, buckets: map<Range, seq<int>>, ranges: seq<Range>)
    returns (res: Option<seq<seq<seq<int>>>>)
    ensures res.None? <==> exists i :: 0 <= i < |ranges| && BucketFails(g.adj, ranges, BucketAt(buckets, ranges[i]))
    ensures res.Some? ==> |res.value| == |ranges|
    ensures res.Some? ==> forall i :: 0 <= i < |ranges| ==>
      BucketRows(g.adj, ranges, BucketAt(buckets, ranges[i]), res.value[i])
  {
    var table: seq<seq<seq<int>>> := [];
    for i := 0 to |ranges|
      invariant |table| == i
      invariant forall i' :: 0 <= i' < i ==> !BucketFails(g.adj, ranges, BucketAt(buckets, ranges[i']))
      invariant forall i' :: 0 <= i' < i ==> BucketRows(g.adj, ranges, BucketAt(buckets, ranges[i']), table[i'])
    {
      var bucket := BucketAt(buckets, ranges[i]);
      var rows: seq<seq<int>> := [];
      for j := 0 to |bucket|
        invariant !BucketFails(g.adj, ranges, bucket[..j])
        invariant BucketRows(g.adj, ranges, bucket[..j], rows)
      {
        if bucket[j] !in g.adj {
          // G.degree(node) raises for a node that is not in the graph
          assert RowFails(g.adj, ranges, bucket[j]);
          return None;
        }
        var row := NeighbourHistogram(g, bucket[j], ranges);
        if row.None? {
          return None;
        }
        assert bucket[..j + 1] == bucket[..j] + [bucket[j]];
        rows := rows + [row.value];
      }
      assert bucket[..|bucket|] == bucket;
      table := table + [rows];
    }
    return Some(table);
  }
}
