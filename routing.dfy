/** The leave-one-out driver of ts.py: every candidate edge of every group
    is held out of the graph, four features are computed on what remains,
    the edge is put back, and the features are recorded under the group and
    routed to the positive or the negative sink by the edge's sign. Unlike
    the util.py driver there is no sampling cap, no path-length gate and no
    failure for degrees beyond the ranges; every fallback is 0.0. */
module SignRouting {
  import opened Collections
  import opened SignedGraphs
  import opened Candidates
  import opened EdgeFeatures

  /** The four features of one candidate: signed path length, random-walk
      weight, Jaccard coefficient and balanced-triangle fraction. */
  datatype Props4 = Props4(signedLength: real, walkWeight: real, jaccard: real, balance: real)

  /** The path features: 0.0 for both when the search finds no path (the
      bare except of ts.py catches the failure), PathFeatures with fallback
      0.0 otherwise. */
  function PathPart4(adj: Adjacency, u: int, v: int, search: PathSearch): (real, real) {
    match search(adj, u, v)
    case NoPath => (0.0, 0.0)
    case Found(_, paths) => PathFeatures(adj, paths, 0.0)
  }

  /** The two clustering features of ts.py's get_clustering_coeff: common
      neighbours over the union formed, which is b's neighbourhood (0.0 when
      it is empty), and balanced triangles over common neighbours (0.0 when
      there are none). Both are fractions. */
  function Clustering2(adj: Adjacency, a: int, b: int, s: int): (r: (real, real))
    ensures 0.0 <= r.0 <= 1.0 && 0.0 <= r.1 <= 1.0
    ensures Neighbours(adj, b) == {} ==> r.0 == 0.0
    ensures Common(adj, a, b) == {} ==> r.1 == 0.0
  {
    var c := CountsOf(adj, a, b, s);
    CountsOrdered(adj, a, b, s);
    (Ratio(c.common, c.union, 0.0), Ratio(c.balanced, c.common, 0.0))
  }

  /** The features of candidate e, computed on the graph with e held out. */
  function Features4(adj: Adjacency, e: SignedPair, search: PathSearch): Props4 {
    var held := Removed(adj, e.u, e.v);
    var (p1, p2) := PathPart4(held, e.u, e.v, search);
    var (p3, p4) := Clustering2(held, e.u, e.v, e.sign);
    Props4(p1, p2, p3, p4)
  }

  function FeatFn4(adj: Adjacency, search: PathSearch): SignedPair -> Props4 {
    e => Features4(adj, e, search)
  }

  /** feat gives every candidate the features it has on adj once held out;
      instantiated only where a Features4 term is at hand. */
  ghost predicate Probes4(feat: SignedPair -> Props4, adj: Adjacency, search: PathSearch) {
    forall e {:trigger Features4(adj, e, search)} :: feat(e) == Features4(adj, e, search)
  }

  lemma FeatFn4Probes(adj: Adjacency, search: PathSearch)
    ensures Probes4(FeatFn4(adj, search), adj, search)
  {
  }

  function SignFn(e: SignedPair): int {
    e.sign
  }

  /** What the sink of sign s receives while the candidates xs are visited
      in order: the features of those carrying s. */
  function Sink(xs: seq<SignedPair>, feat: SignedPair -> Props4, s: int): (r: seq<Props4>)
    ensures |r| <= |xs|
  {
    if xs == [] then []
    else
      var e := xs[|xs| - 1];
      Sink(xs[..|xs| - 1], feat, s) + (if e.sign == s then [feat(e)] else [])
  }

  /** The candidates of the groups, one group after the other in the order
      keys lists them. */
  function Flatten<K(==)>(keys: seq<K>, cands: map<K, seq<SignedPair>>): seq<SignedPair>
    requires forall k :: k in keys ==> k in cands
  {
    if keys == [] then [] else Flatten(keys[..|keys| - 1], cands) + cands[keys[|keys| - 1]]
  }

  /** get_clustering_coeff of ts.py on the graph as it stands. */
  method ClusteringCoeff(g: SignedGraph, a: int, b: int, s: int) returns (prop3: real, prop4: real)
    requires a in g.adj && b in g.adj
    ensures (prop3, prop4) == Clustering2(g.adj, a, b, s)
  {
    var adj := g.adj;
    var set2 := adj[b].Keys;
    var intersection := adj[a].Keys * set2;
    // the iterator over a's neighbours is exhausted by now
    var list1Rest: set<int> := {};
    var union := set2 + list1Rest;
    assert intersection == Common(adj, a, b) && union == UnionAsWritten(adj, a, b);
    var balanced := CountBalanced(adj, a, b, s, intersection);
    prop3 := Ratio(|intersection|, |union|, 0.0);
    prop4 := Ratio(balanced, |intersection|, 0.0);
  }

  /** One candidate of the loop in ts.py's get_properties_by_group: the edge
      is removed, its features computed, and it is added back with its own
      sign, which leaves the graph as it was. */
  method LeaveOneOutTs(g: SignedGraph, e: SignedPair, search: PathSearch) returns (props: Props4)
    requires g.Valid() && IsSignedEdge(g.adj, e) && Honest(search)
    modifies g
    ensures g.Valid() && g.nodes == old(g.nodes) && g.adj == old(g.adj)
    ensures props == Features4(old(g.adj), e, search)
  {
    ghost var adj0 := g.adj;
    g.RemoveEdge(e.u, e.v);
    ghost var held := g.adj;
    var p1, p2;
    var found := search(g.adj, e.u, e.v);
    if found.NoPath? {
      p1, p2 := 0.0, 0.0;
    } else {
      p1, p2 := PathProps(g, found.paths, 0.0);
    }
    assert (p1, p2) == PathPart4(held, e.u, e.v, search);
    var p3, p4 := ClusteringCoeff(g, e.u, e.v, e.sign);
    assert e.u != e.v && IsSign(e.sign);
    g.AddEdge(e.u, e.v, e.sign);
    RestoreEdge(adj0, e.u, e.v);
    props := Props4(p1, p2, p3, p4);
  }

  /** LeaveOneOutTs seen through a feature function feat that Probes4. */
  method Probe4(g: SignedGraph, e: SignedPair, search: PathSearch, ghost feat: SignedPair -> Props4)
    returns (props: Props4)
    requires g.Valid() && IsSignedEdge(g.adj, e) && Honest(search) && Probes4(feat, g.adj, search)
    modifies g
    ensures g.Valid() && g.nodes == old(g.nodes) && g.adj == old(g.adj)
    ensures props == feat(e)
  {
    props := LeaveOneOutTs(g, e, search);
  }

  /** The inner loop of ts.py's get_properties_by_group over one group:
      the features of each candidate in order, each also written to the sink
      of its sign. */
  method ProbeGroup(g: SignedGraph, group: seq<SignedPair>, search: PathSearch, ghost feat: SignedPair -> Props4,
                    pos0: seq<Props4>, neg0: seq<Props4>)
    returns (list: seq<Props4>, pos: seq<Props4>, neg: seq<Props4>)
    requires g.Valid() && Honest(search) && Probes4(feat, g.adj, search)
    requires forall e :: e in group ==> IsSignedEdge(g.adj, e)
    modifies g
    ensures g.Valid() && g.nodes == old(g.nodes) && g.adj == old(g.adj)
    ensures list == MapSeq(group, feat)
    ensures pos == pos0 + Sink(group, feat, 1)
    ensures neg == neg0 + Sink(group, feat, -1)
  {
    ghost var adj0 := g.adj;
    list, pos, neg := [], pos0, neg0;
    for j := 0 to |group|
      invariant g.Valid() && g.nodes == old(g.nodes) && g.adj == adj0
      invariant list == MapSeq(group[..j], feat)
      invariant pos == pos0 + Sink(group[..j], feat, 1)
      invariant neg == neg0 + Sink(group[..j], feat, -1)
    {
      var e := group[j];
      assert group[..j + 1] == group[..j] + [e];
      var props := Probe4(g, e, search, feat);
      if e.sign == 1 {
        pos := pos + [props];
      } else if e.sign == -1 {
        neg := neg + [props];
      } else {
        // the sign of an edge is +1 or -1
        assert false;
      }
      list := list + [props];
    }
    assert group[..|group|] == group;
  }

  /** get_properties_by_group of ts.py: for every group (in the order keys
      gives), the features of each of its candidates in order; the features
      of the positive edges, in visiting order, go to the positive sink and
      those of the negative edges to the negative sink. The graph is left as
      it was. */
  method PropertiesBySign<K(==)>(g: SignedGraph, cands: map<K, seq<SignedPair>>, keys: seq<K>,
                                 search: PathSearch, ghost feat: SignedPair -> Props4)
    returns (byGroup: map<K, seq<Props4>>, pos: seq<Props4>, neg: seq<Props4>)
    requires g.Valid() && Honest(search) && Probes4(feat, g.adj, search)
    requires Distinct(keys) && forall k :: k in cands <==> k in keys
    requires forall k, e :: k in cands && e in cands[k] ==> IsSignedEdge(g.adj, e)
    modifies g
    ensures g.Valid() && g.nodes == old(g.nodes) && g.adj == old(g.adj)
    ensures byGroup.Keys == cands.Keys
    ensures forall k :: k in byGroup ==> byGroup[k] == MapSeq(cands[k], feat)
    ensures pos == Sink(Flatten(keys, cands), feat, 1)
    ensures neg == Sink(Flatten(keys, cands), feat, -1)
  {
    ghost var adj0 := g.adj;
    byGroup, pos, neg := map[], [], [];
    for t := 0 to |keys|
      invariant g.Valid() && g.nodes == old(g.nodes) && g.adj == adj0
      invariant forall k :: k in byGroup <==> k in keys[..t]
      invariant forall k :: k in byGroup ==> byGroup[k] == MapSeq(cands[k], feat)
      invariant pos == Sink(Flatten(keys[..t], cands), feat, 1)
      invariant neg == Sink(Flatten(keys[..t], cands), feat, -1)
    {
      var k := keys[t];
      assert keys[..t + 1][..t] == keys[..t];
      ghost var before := Flatten(keys[..t], cands);
      assert Flatten(keys[..t + 1], cands) == before + cands[k];
      SinkAppend(before, cands[k], feat, 1);
      SinkAppend(before, cands[k], feat, -1);
      var list;
      list, pos, neg := ProbeGroup(g, cands[k], search, feat, pos, neg);
      byGroup := byGroup[k := list];
    }
    assert keys[..|keys|] == keys;
  }

  /** The sink contents of two runs of candidates, one after the other. */
  lemma {:induction false} SinkAppend(xs: seq<SignedPair>, ys: seq<SignedPair>, feat: SignedPair -> Props4, s: int)
    ensures Sink(xs + ys, feat, s) == Sink(xs, feat, s) + Sink(ys, feat, s)
  {
    if ys == [] {
      assert xs + ys == xs;
    } else {
      var init, e := ys[..|ys| - 1], ys[|ys| - 1];
      SinkAppend(xs, init, feat, s);
      assert (xs + ys)[..|xs + ys| - 1] == xs + init;
    }
  }

  /** The sink of sign s holds the features of the candidates of sign s, in
      visiting order. */
  lemma {:induction false} SinkIsFiltered(xs: seq<SignedPair>, feat: SignedPair -> Props4, s: int)
    ensures Sink(xs, feat, s) == MapSeq(Filter(xs, SignFn, s), feat)
  {
    if xs != [] {
      var init, e := xs[..|xs| - 1], xs[|xs| - 1];
      SinkIsFiltered(init, feat, s);
      if e.sign == s {
        var r := Filter(init, SignFn, s);
        assert (r + [e])[..|r|] == r;
      }
    }
  }

  /** Every candidate goes to exactly one sink when all signs are +1 or -1:
      together the sinks rearrange the visited candidates and their sizes
      add up to the number of candidates. */
  lemma SinksPartition(xs: seq<SignedPair>)
    requires forall e :: e in xs ==> IsSign(e.sign)
    ensures multiset(Filter(xs, SignFn, 1)) + multiset(Filter(xs, SignFn, -1)) == multiset(xs)
    ensures |Filter(xs, SignFn, 1)| + |Filter(xs, SignFn, -1)| == |xs|
  {
    FilterAllPermutes(xs, SignFn, [1, -1]);
    assert [1, -1][..1] == [1];
    assert FilterAll(xs, SignFn, [1, -1]) == Filter(xs, SignFn, 1) + Filter(xs, SignFn, -1);
  }

  /** Written out: the two sinks together receive one feature record per
      visited candidate. */
  lemma SinkSizes(xs: seq<SignedPair>, feat: SignedPair -> Props4)
    requires forall e :: e in xs ==> IsSign(e.sign)
    ensures |Sink(xs, feat, 1)| + |Sink(xs, feat, -1)| == |xs|
  {
    SinkIsFiltered(xs, feat, 1);
    SinkIsFiltered(xs, feat, -1);
    SinksPartition(xs);
  }

  /** A candidate's features are routed to the positive sink exactly when
      its sign is +1, and to the negative sink exactly when it is -1. */
  lemma SinkMembers(xs: seq<SignedPair>, e: SignedPair)
    ensures e in Filter(xs, SignFn, 1) <==> e in xs && e.sign == 1
    ensures e in Filter(xs, SignFn, -1) <==> e in xs && e.sign == -1
  {
    FilterMembers(xs, SignFn, 1, e);
    FilterMembers(xs, SignFn, -1, e);
  }

  /** The path features: in (-1, 1) and (0, 1] when a path was found, both
      0.0 otherwise. */
  lemma PathPart4Bounds(held: Adjacency, u: int, v: int, search: PathSearch)
    requires WellFormed(held) && Honest(search)
    ensures var (p1, p2) := PathPart4(held, u, v, search);
      && -1.0 < p1 < 1.0 && 0.0 <= p2 <= 1.0
      && (search(held, u, v).NoPath? || search(held, u, v).paths == [] ==> p1 == 0.0 && p2 == 0.0)
  {
    match search(held, u, v)
    case NoPath =>
    case Found(_, paths) =>
      PathFeatureBounds(held, paths, 0.0);
  }

  /** The bounds of the four features of one held-out edge: the signed path
      length in (-1, 1), the walk weight, Jaccard and balanced fractions in
      [0, 1]; each fallback is 0.0. */
  lemma Features4Bounds(adj: Adjacency, e: SignedPair, search: PathSearch)
    requires WellFormed(adj) && IsSignedEdge(adj, e) && Honest(search)
    ensures var f := Features4(adj, e, search);
      && -1.0 < f.signedLength < 1.0
      && 0.0 <= f.walkWeight <= 1.0
      && 0.0 <= f.jaccard <= 1.0
      && 0.0 <= f.balance <= 1.0
  {
    var held := Removed(adj, e.u, e.v);
    RemovedWellFormed(adj, e.u, e.v);
    CountsOrdered(held, e.u, e.v, e.sign);
    PathPart4Bounds(held, e.u, e.v, search);
  }
}
