/** The undirected signed graph the feature engine works on: every node maps
    each neighbour to the sign (+1 trust, -1 distrust) of the edge between
    them. The shared graph object is mutated in place by the leave-one-out
    drivers, which remove an edge and add it back. */
module SignedGraphs {
  import opened Collections

  type Adjacency = map<int, map<int, int>>

  predicate IsSign(s: int) {
    s == 1 || s == -1
  }

  /** Undirected (each edge stored at both ends with one sign), without
      self-loops, and every sign +1 or -1. */
  ghost predicate WellFormed(adj: Adjacency) {
    forall u, v {:trigger adj[u][v]} {:trigger v in adj[u]} :: u in adj && v in adj[u] ==>
      v in adj && u in adj[v] && adj[v][u] == adj[u][v] && u != v && IsSign(adj[u][v])
  }

  function Neighbours(adj: Adjacency, u: int): set<int> {
    if u in adj then adj[u].Keys else {}
  }

  /** The degree of u: its number of neighbours. */
  function Deg(adj: Adjacency, u: int): nat {
    |Neighbours(adj, u)|
  }

  predicate IsEdge(adj: Adjacency, u: int, v: int) {
    u in adj && v in adj[u]
  }

  /** The sign of edge (u, v), and 0 where there is no such edge. */
  function SignOf(adj: Adjacency, u: int, v: int): int {
    if IsEdge(adj, u, v) then adj[u][v] else 0
  }

  /** The graph with edge (u, v) taken out at both ends. */
  function Removed(adj: Adjacency, u: int, v: int): (r: Adjacency)
    ensures r.Keys == adj.Keys
  {
    if u in adj && v in adj then adj[u := adj[u] - {v}][v := adj[v] - {u}] else adj
  }

  /** The graph with edge (u, v) present at both ends with sign s. */
  function WithEdge(adj: Adjacency, u: int, v: int, s: int): (r: Adjacency)
    ensures r.Keys == adj.Keys
  {
    if u in adj && v in adj then adj[u := adj[u][v := s]][v := adj[v][u := s]] else adj
  }

  /** Taking an edge out keeps the graph well formed, drops exactly that edge,
      and leaves every other adjacency and sign as it was. */
  lemma RemovedWellFormed(adj: Adjacency, u: int, v: int)
    requires WellFormed(adj) && IsEdge(adj, u, v)
    ensures WellFormed(Removed(adj, u, v))
    ensures !IsEdge(Removed(adj, u, v), u, v) && !IsEdge(Removed(adj, u, v), v, u)
    ensures forall x, y :: IsEdge(Removed(adj, u, v), x, y) <==>
      IsEdge(adj, x, y) && !(x == u && y == v) && !(x == v && y == u)
    ensures forall x, y :: IsEdge(Removed(adj, u, v), x, y) ==> Removed(adj, u, v)[x][y] == adj[x][y]
  {
  }

  /** Adding a signed edge between two distinct nodes keeps the graph well
      formed. */
  lemma AddedWellFormed(adj: Adjacency, u: int, v: int, s: int)
    requires WellFormed(adj) && u in adj && v in adj && u != v && IsSign(s)
    ensures WellFormed(WithEdge(adj, u, v, s))
  {
    var r := WithEdge(adj, u, v, s);
    forall x, y | x in r && y in r[x]
      ensures y in r && x in r[y] && r[y][x] == r[x][y] && x != y && IsSign(r[x][y])
    {
      if (x == u && y == v) || (x == v && y == u) {
      } else {
        assert y in adj[x];
      }
    }
  }

  /** Removing an edge and adding it back with its own sign gives back the
      graph: the leave-one-out probe leaves no trace. */
  lemma {:induction false} RestoreEdge(adj: Adjacency, u: int, v: int)
    requires WellFormed(adj) && IsEdge(adj, u, v)
    ensures WithEdge(Removed(adj, u, v), u, v, adj[u][v]) == adj
  {
    var s := adj[u][v];
    var h := Removed(adj, u, v);
    var r := WithEdge(h, u, v, s);
    assert r[u] == adj[u] by {
      assert r[u] == (adj[u] - {v})[v := s];
    }
    assert r[v] == adj[v] by {
      assert r[v] == (adj[v] - {u})[u := s];
    }
    assert forall x :: x in adj && x != u && x != v ==> r[x] == adj[x];
  }

  /** Without self-loops a node has at most n - 1 neighbours in a graph of n
      nodes. */
  lemma DegBelowOrder(adj: Adjacency, u: int)
    requires WellFormed(adj) && u in adj
    ensures Deg(adj, u) <= |adj| - 1
  {
    var others := adj.Keys - {u};
    var nbrs := Neighbours(adj, u);
    forall v | v in nbrs
      ensures v in others
    {
      assert v in adj[u];
    }
    assert others == nbrs + (others - nbrs);
  }

  /** The networkx graph G: the order in which G.degree() lists its nodes,
      and its adjacency. */
  class SignedGraph {
    var nodes: seq<int>
    var adj: Adjacency

    ghost predicate Valid()
      reads this
    {
      && WellFormed(adj)
      && Distinct(nodes)
      && (forall i :: 0 <= i < |nodes| ==> nodes[i] in adj)
      && |adj| == |nodes|
    }

    /** G.remove_edge(u, v); the library raises when there is no such edge. */
    method RemoveEdge(u: int, v: int)
      requires Valid() && IsEdge(adj, u, v)
      modifies this
      ensures Valid()
      ensures nodes == old(nodes) && adj == Removed(old(adj), u, v)
    {
      RemovedWellFormed(adj, u, v);
      adj := Removed(adj, u, v);
    }

    /** G.add_edge(u, v, sign=s) between two nodes already in the graph. */
    method AddEdge(u: int, v: int, s: int)
      requires Valid() && u in adj && v in adj && u != v && IsSign(s)
      modifies this
      ensures Valid()
      ensures nodes == old(nodes) && adj == WithEdge(old(adj), u, v, s)
    {
      AddedWellFormed(adj, u, v, s);
      adj := WithEdge(adj, u, v, s);
      assert adj.Keys == old(adj).Keys;
    }
  }
}
