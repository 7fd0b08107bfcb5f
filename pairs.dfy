/** Candidate enumeration: the signed edges a feature run will probe, either
    inside one degree bucket (every pair of bucket members that is an edge)
    or across buckets (every edge whose endpoints fall in different ranges). */
module Candidates {
  import opened Collections
  import opened SignedGraphs
  import opened DegreeRanges

  /** A candidate edge (u, v) with the sign it carries in the graph. */
  datatype SignedPair = SignedPair(u: int, v: int, sign: int)

  /** The candidate for nodes a, b: the pair with its sign if it is an edge,
      nothing otherwise. */
  function EdgeOrNothing(adj: Adjacency, a: int, b: int): seq<SignedPair> {
    if IsEdge(adj, a, b) then [SignedPair(a, b, adj[a][b])] else []
  }

  /** Row i of the enumeration: the edges (nodes[i], nodes[j']) for
      i < j' < j, in order of j'. */
  function RowPairs(adj: Adjacency, nodes: seq<int>, i: nat, j: nat): seq<SignedPair>
    requires i < |nodes| && j <= |nodes|
  {
    if j <= i + 1 then []
    else RowPairs(adj, nodes, i, j - 1) + EdgeOrNothing(adj, nodes[i], nodes[j - 1])
  }

  /** The rows 0 .. i-1 of the enumeration, one after the other. */
  function RowsBefore(adj: Adjacency, nodes: seq<int>, i: nat): seq<SignedPair>
    requires i <= |nodes|
  {
    if i == 0 then [] else RowsBefore(adj, nodes, i - 1) + RowPairs(adj, nodes, i - 1, |nodes|)
  }

  /** The intra-group candidates of one bucket: every pair i < j of its
      members that is an edge, tagged with its sign, in lexicographic (i, j)
      order (the outer loop of get_adjacent_node_pairs_with_sign stops before the last member,
      whose row is empty). */
  function IntraPairs(adj: Adjacency, nodes: seq<int>): seq<SignedPair> {
    if |nodes| == 0 then [] else RowsBefore(adj, nodes, |nodes| - 1)
  }

  /** The candidate carries the edge's own sign. */
  predicate IsSignedEdge(adj: Adjacency, e: SignedPair) {
    IsEdge(adj, e.u, e.v) && adj[e.u][e.v] == e.sign
  }

  /** e is the edge (nodes[i], nodes[j']) of row i, with i < j' < j. */
  predicate InRow(adj: Adjacency, nodes: seq<int>, i: int, j: int, e: SignedPair, j': int) {
    0 <= i < j' < j && j' < |nodes| && e.u == nodes[i] && e.v == nodes[j'] && IsSignedEdge(adj, e)
  }

  /** e is the edge (nodes[i'], nodes[j']) of some row i' < i. */
  predicate InRows(adj: Adjacency, nodes: seq<int>, i: int, e: SignedPair, i': int, j': int) {
    i' < i && InRow(adj, nodes, i', |nodes|, e, j')
  }

  lemma {:induction false} RowPairsMembers(adj: Adjacency, nodes: seq<int>, i: nat, j: nat, e: SignedPair)
    requires i < |nodes| && j <= |nodes|
    ensures e in RowPairs(adj, nodes, i, j) <==> exists j' :: InRow(adj, nodes, i, j, e, j')
  {
    if j > i + 1 {
      RowPairsMembers(adj, nodes, i, j - 1, e);
      if e in RowPairs(adj, nodes, i, j) {
        if e in RowPairs(adj, nodes, i, j - 1) {
          var j' :| InRow(adj, nodes, i, j - 1, e, j');
          assert InRow(adj, nodes, i, j, e, j');
        } else {
          assert InRow(adj, nodes, i, j, e, j - 1);
        }
      } else {
        forall j' | 0 <= j'
          ensures !InRow(adj, nodes, i, j, e, j')
        {
          if j' < j - 1 {
            assert !InRow(adj, nodes, i, j - 1, e, j');
          }
        }
      }
    }
  }

  lemma {:induction false} RowsBeforeMembers(adj: Adjacency, nodes: seq<int>, i: nat, e: SignedPair)
    requires i <= |nodes|
    ensures e in RowsBefore(adj, nodes, i) <==> exists i', j' :: InRows(adj, nodes, i, e, i', j')
  {
    if i > 0 {
      var earlier, row := RowsBefore(adj, nodes, i - 1), RowPairs(adj, nodes, i - 1, |nodes|);
      assert e in RowsBefore(adj, nodes, i) <==> e in earlier || e in row;
      RowsBeforeMembers(adj, nodes, i - 1, e);
      RowPairsMembers(adj, nodes, i - 1, |nodes|, e);
      if e in earlier {
        var i', j' :| InRows(adj, nodes, i - 1, e, i', j');
        assert InRows(adj, nodes, i, e, i', j');
      } else if e in row {
        var j' :| InRow(adj, nodes, i - 1, |nodes|, e, j');
        assert InRows(adj, nodes, i, e, i - 1, j');
      } else {
        forall i', j' | 0 <= i'
          ensures !InRows(adj, nodes, i, e, i', j')
        {
          if i' < i - 1 {
            assert !InRows(adj, nodes, i - 1, e, i', j');
          } else {
            assert !InRow(adj, nodes, i - 1, |nodes|, e, j');
          }
        }
      }
    }
  }

  /** A triple is an intra-group candidate exactly when it is (nodes[i],
      nodes[j]) for some i < j, the two are joined by an edge, and it carries
      that edge's sign: non-edges are skipped, and nothing else is emitted. */
  lemma IntraPairsExactly(adj: Adjacency, nodes: seq<int>, e: SignedPair)
    ensures e in IntraPairs(adj, nodes) <==>
      exists i, j :: 0 <= i < j < |nodes| && e.u == nodes[i] && e.v == nodes[j] && IsSignedEdge(adj, e)
  {
    if |nodes| > 0 {
      RowsBeforeMembers(adj, nodes, |nodes| - 1, e);
      if e in IntraPairs(adj, nodes) {
        var i, j :| InRows(adj, nodes, |nodes| - 1, e, i, j);
        assert 0 <= i < j < |nodes| && e.u == nodes[i] && e.v == nodes[j];
      } else {
        forall i, j | 0 <= i < j < |nodes|
          ensures !(e.u == nodes[i] && e.v == nodes[j] && IsSignedEdge(adj, e))
        {
          assert !InRows(adj, nodes, |nodes| - 1, e, i, j);
        }
      }
    }
  }

  /** The nested loops of get_adjacent_node_pairs_with_sign for one group:
      its intra-group candidates, row by row. */
  method GroupPairs(adj: Adjacency, nodes: seq<int>) returns (pairs: seq<SignedPair>)
    ensures pairs == IntraPairs(adj, nodes)
  {
    pairs := [];
    var i := 0;
    while i < |nodes| - 1
      invariant 0 <= i <= |nodes|
      invariant |nodes| > 0 ==> i <= |nodes| - 1
      invariant |nodes| == 0 ==> i == 0
      invariant pairs == RowsBefore(adj, nodes, i)
    {
      var j := i + 1;
      while j < |nodes|
        invariant i + 1 <= j <= |nodes|
        invariant pairs == RowsBefore(adj, nodes, i) + RowPairs(adj, nodes, i, j)
      {
        var a, b := nodes[i], nodes[j];
        j := j + 1;
        if !IsEdge(adj, a, b) {
          // get_edge_data returned its default: not an edge
          continue;
        }
        pairs := pairs + [SignedPair(a, b, adj[a][b])];
      }
      i := i + 1;
    }
  }

  /** get_adjacent_node_pairs_with_sign (util.py, and ts.py which has the
      same code): for every group, its intra-group candidates; every group
      key is present, even when it has no candidate. */
  method IntraGroupPairs(g: SignedGraph, cluster: map<Range, seq<int>>) returns (out: map<Range, seq<SignedPair>>)
    ensures out.Keys == cluster.Keys
    ensures forall k :: k in out ==> out[k] == IntraPairs(g.adj, cluster[k])
  {
    var adj := g.adj;
    out := map[];
    var todo := cluster.Keys;
    while todo != {}
      invariant todo <= cluster.Keys
      invariant out.Keys == cluster.Keys - todo
      invariant forall k :: k in out ==> out[k] == IntraPairs(adj, cluster[k])
      decreases todo
    {
      ghost var some := Pick(todo);
      var k :| k in todo;
      var pairs := GroupPairs(adj, cluster[k]);
      out := out[k := pairs];
      todo := todo - {k};
    }
  }

  /** Whether the endpoints of (u, v) fall in different ranges. */
  predicate CrossesRanges(adj: Adjacency, ranges: seq<Range>, u: int, v: int) {
    FirstReaching(ranges, Deg(adj, u)) != FirstReaching(ranges, Deg(adj, v))
  }

  /** The inter-group candidates: the listed edges, in order and with their
      original endpoint order, whose endpoints fall in different ranges. */
  function CrossPairs(adj: Adjacency, ranges: seq<Range>, edges: seq<(int, int)>): seq<SignedPair> {
    if edges == [] then []
    else
      var last := edges[|edges| - 1];
      CrossPairs(adj, ranges, edges[..|edges| - 1]) +
        (if CrossesRanges(adj, ranges, last.0, last.1)
         then [SignedPair(last.0, last.1, SignOf(adj, last.0, last.1))] else [])
  }

  /** A triple is an inter-group candidate exactly when it is a listed edge,
      in its listed orientation, whose endpoints fall in different ranges,
      carrying that edge's sign. */
  lemma {:induction false} CrossPairsMembers(adj: Adjacency, ranges: seq<Range>, edges: seq<(int, int)>, e: SignedPair)
    ensures e in CrossPairs(adj, ranges, edges) <==>
      (e.u, e.v) in edges && CrossesRanges(adj, ranges, e.u, e.v) && e.sign == SignOf(adj, e.u, e.v)
  {
    if edges != [] {
      var init := edges[..|edges| - 1];
      assert edges == init + [edges[|edges| - 1]];
      CrossPairsMembers(adj, ranges, init, e);
    }
  }

  /** Every listed edge so far has both endpoints covered. */
  predicate EdgesCovered(adj: Adjacency, ranges: seq<Range>, edges: seq<(int, int)>) {
    forall e :: e in edges ==> Covered(adj, ranges, e.0) && Covered(adj, ranges, e.1)
  }

  /** The edge listing of the graph, as G.edges() yields it: every listed
      pair is an edge. */
  predicate ListsEdges(adj: Adjacency, edges: seq<(int, int)>) {
    forall e :: e in edges ==> IsEdge(adj, e.0, e.1)
  }

  /** get_inter_group_adjacent_node_pairs_with_sign: the cross-range edges as
      one list under key 0; None when some endpoint degree is beyond every
      range. */
  method InterGroupPairs(g: SignedGraph, edges: seq<(int, int)>, ranges: seq<Range>)
    returns (res: Option<map<int, seq<SignedPair>>>)
    requires ListsEdges(g.adj, edges)
    ensures res.None? <==> exists e :: e in edges && (!Covered(g.adj, ranges, e.0) || !Covered(g.adj, ranges, e.1))
    ensures res.Some? ==> res.value == map[0 := CrossPairs(g.adj, ranges, edges)]
  {
    var adj := g.adj;
    var crossing: seq<SignedPair> := [];
    for t := 0 to |edges|
      invariant EdgesCovered(adj, ranges, edges[..t])
      invariant crossing == CrossPairs(adj, ranges, edges[..t])
    {
      PrefixSnoc(edges, t);
      var a, b := edges[t].0, edges[t].1;
      var g1 := RangeIndex(Deg(adj, a), ranges);
      var g2 := RangeIndex(Deg(adj, b), ranges);
      if g1.None? || g2.None? {
        assert edges[t] in edges;
        return None;
      }
      if g1 == g2 {
        continue;
      }
      crossing := crossing + [SignedPair(a, b, adj[a][b])];
    }
    assert edges[..|edges|] == edges;
    return Some(map[0 := crossing]);
  }

  /** Every intra-group candidate is an edge of the graph with its sign. */
  lemma IntraPairsAreSignedEdges(adj: Adjacency, nodes: seq<int>)
    ensures forall e :: e in IntraPairs(adj, nodes) ==> IsSignedEdge(adj, e)
  {
    forall e | e in IntraPairs(adj, nodes)
      ensures IsSignedEdge(adj, e)
    {
      IntraPairsExactly(adj, nodes, e);
    }
  }

  /** When the listing holds every edge in one orientation or the other,
      every edge of the graph between different ranges is an inter-group
      candidate, in its listed orientation and with its sign. */
  lemma CrossPairsComplete(adj: Adjacency, ranges: seq<Range>, edges: seq<(int, int)>, u: int, v: int)
    requires WellFormed(adj) && ListsEdges(adj, edges)
    requires forall x, y :: IsEdge(adj, x, y) ==> (x, y) in edges || (y, x) in edges
    requires IsEdge(adj, u, v) && CrossesRanges(adj, ranges, u, v)
    ensures SignedPair(u, v, adj[u][v]) in CrossPairs(adj, ranges, edges) ||
            SignedPair(v, u, adj[u][v]) in CrossPairs(adj, ranges, edges)
  {
    assert SignOf(adj, u, v) == adj[u][v] == SignOf(adj, v, u);
    CrossPairsMembers(adj, ranges, edges, SignedPair(u, v, adj[u][v]));
    CrossPairsMembers(adj, ranges, edges, SignedPair(v, u, adj[u][v]));
  }
}
