/** The per-edge features computed while an edge is held out of the graph:
    two averages over the shortest paths between its endpoints, and counts
    of the triangles it closes with common neighbours. All ratios are exact
    reals. */
module EdgeFeatures {
  import opened Collections
  import opened SignedGraphs

  /** What the shortest-path search reports: no path at all, or the shortest
      path length and every shortest path as a node sequence. */
  datatype PathResult = NoPath | Found(length: int, paths: seq<seq<int>>)

  /** The path search of the graph library, supplied by the caller. */
  type PathSearch = (Adjacency, int, int) -> PathResult

  /** p is a walk of at least two nodes along edges of adj. */
  predicate IsWalk(adj: Adjacency, p: seq<int>) {
    |p| >= 2 && forall i :: 1 <= i < |p| ==> IsEdge(adj, p[i - 1], p[i])
  }

  /** Every path the search reports is a walk from the queried start node
      to the queried end node in the graph it was asked about. */
  ghost predicate Honest(search: PathSearch) {
    forall adj, u, v, p :: search(adj, u, v).Found? && p in search(adj, u, v).paths ==>
      IsWalk(adj, p) && p[0] == u && p[|p| - 1] == v
  }

  /** The sum of the signs of the edges along p. */
  function SignSum(adj: Adjacency, p: seq<int>): int {
    if |p| < 2 then 0 else SignSum(adj, p[..|p| - 1]) + SignOf(adj, p[|p| - 2], p[|p| - 1])
  }

  /** The random-walk weight 1/deg(x) of a node; nodes on a walk are never
      isolated, so the 0 for an isolated node is never used. */
  function InvDegree(adj: Adjacency, x: int): real {
    if Deg(adj, x) == 0 then 0.0 else 1.0 / Deg(adj, x) as real
  }

  function InvDegreeSum(adj: Adjacency, p: seq<int>): real {
    if p == [] then 0.0 else InvDegreeSum(adj, p[..|p| - 1]) + InvDegree(adj, p[|p| - 1])
  }

  /** Signed average length of one path: its sign sum over its node count. */
  function SignedLength(adj: Adjacency, p: seq<int>): real {
    if p == [] then 0.0 else SignSum(adj, p) as real / |p| as real
  }

  /** Random-walk weight of one path: the mean of 1/deg over its nodes. */
  function WalkWeight(adj: Adjacency, p: seq<int>): real {
    if p == [] then 0.0 else InvDegreeSum(adj, p) / |p| as real
  }

  function TotalSignedLength(adj: Adjacency, paths: seq<seq<int>>): real {
    if paths == [] then 0.0
    else TotalSignedLength(adj, paths[..|paths| - 1]) + SignedLength(adj, paths[|paths| - 1])
  }

  function TotalWalkWeight(adj: Adjacency, paths: seq<seq<int>>): real {
    if paths == [] then 0.0
    else TotalWalkWeight(adj, paths[..|paths| - 1]) + WalkWeight(adj, paths[|paths| - 1])
  }

  /** The two path features: the means over all paths of the signed average
      length and of the random-walk weight, or the fallback for both when
      there is no path. */
  function PathFeatures(adj: Adjacency, paths: seq<seq<int>>, fallback: real): (real, real) {
    if |paths| == 0 then (fallback, fallback)
    else (TotalSignedLength(adj, paths) / |paths| as real, TotalWalkWeight(adj, paths) / |paths| as real)
  }

  /** Every node of a walk in a well-formed graph has a neighbour. */
  lemma WalkDegrees(adj: Adjacency, p: seq<int>)
    requires WellFormed(adj) && IsWalk(adj, p)
    ensures forall k :: 0 <= k < |p| ==> Deg(adj, p[k]) >= 1
  {
    forall k | 0 <= k < |p|
      ensures Deg(adj, p[k]) >= 1
    {
      var other := if k == 0 then p[1] else p[k - 1];
      assert IsEdge(adj, p[0], p[1]);
      assert other in Neighbours(adj, p[k]);
    }
  }

  /** The two sums of one path: the signs of its edges and 1/deg over its
      nodes. */
  method WalkSums(adj: Adjacency, p: seq<int>) returns (p1: int, p2: real)
    requires WellFormed(adj) && IsWalk(adj, p)
    ensures p1 == SignSum(adj, p) && p2 == InvDegreeSum(adj, p)
  {
    WalkDegrees(adj, p);
    p1, p2 := 0, 0.0;
    for k := 0 to |p|
      invariant p2 == InvDegreeSum(adj, p[..k])
    {
      assert p[..k + 1][..k] == p[..k];
      p2 := p2 + 1.0 / Deg(adj, p[k]) as real;
    }
    for i := 1 to |p|
      invariant p1 == SignSum(adj, p[..i])
    {
      assert p[..i + 1][..i] == p[..i];
      p1 := p1 + adj[p[i - 1]][p[i]];
    }
    assert p[..|p|] == p;
  }

  /** get_properties_from_paths: for each path, the sign sum of its edges and
      the sum of 1/deg over its nodes, each divided by the node count; the
      results averaged over the paths, or the fallback when there is none. */
  method PathProps(g: SignedGraph, paths: seq<seq<int>>, fallback: real) returns (prop1: real, prop2: real)
    requires WellFormed(g.adj)
    requires forall p :: p in paths ==> IsWalk(g.adj, p)
    ensures (prop1, prop2) == PathFeatures(g.adj, paths, fallback)
  {
    var adj := g.adj;
    var total1, total2 := 0.0, 0.0;
    var count := 0;
    for t := 0 to |paths|
      invariant count == t
      invariant total1 == TotalSignedLength(adj, paths[..t])
      invariant total2 == TotalWalkWeight(adj, paths[..t])
    {
      var p := paths[t];
      assert p in paths;
      count := count + 1;
      var p1, p2 := WalkSums(adj, p);
      total1 := total1 + p1 as real / |p| as real;
      total2 := total2 + p2 / |p| as real;
      assert paths[..t + 1][..t] == paths[..t];
    }
    assert paths[..|paths|] == paths;
    if count > 0 {
      prop1, prop2 := total1 / count as real, total2 / count as real;
    } else {
      prop1, prop2 := fallback, fallback;
    }
  }

  lemma {:induction false} SignSumBound(adj: Adjacency, p: seq<int>)
    requires WellFormed(adj)
    requires forall i :: 1 <= i < |p| ==> IsEdge(adj, p[i - 1], p[i])
    ensures |p| >= 1 ==> -(|p| - 1) <= SignSum(adj, p) <= |p| - 1
  {
    if |p| >= 2 {
      var init := p[..|p| - 1];
      assert forall i :: 0 <= i < |init| ==> init[i] == p[i];
      SignSumBound(adj, init);
      var u, v := p[|p| - 2], p[|p| - 1];
      assert u in adj && v in adj[u];
      assert IsSign(adj[u][v]);
    }
  }

  lemma InvDegreeBound(d: nat)
    requires d >= 1
    ensures 0.0 < 1.0 / d as real <= 1.0
  {
    var q := 1.0 / d as real;
    assert q * d as real == 1.0;
  }

  lemma {:induction false} InvDegreeSumBound(adj: Adjacency, p: seq<int>)
    requires forall k :: 0 <= k < |p| ==> Deg(adj, p[k]) >= 1
    ensures p != [] ==> 0.0 < InvDegreeSum(adj, p) <= |p| as real
  {
    if p != [] {
      var init := p[..|p| - 1];
      assert forall k :: 0 <= k < |init| ==> init[k] == p[k];
      InvDegreeSumBound(adj, init);
      InvDegreeBound(Deg(adj, p[|p| - 1]));
    }
  }

  /** x / n lies strictly between -1 and 1 when x does between -n and n. */
  lemma QuotientInside(x: real, n: real)
    requires n > 0.0 && -n < x < n
    ensures -1.0 < x / n < 1.0
  {
    var q := x / n;
    assert q * n == x;
  }

  /** x / n lies in (0, 1] when x does in (0, n]. */
  lemma QuotientPositive(x: real, n: real)
    requires n > 0.0 && 0.0 < x <= n
    ensures 0.0 < x / n <= 1.0
  {
    var q := x / n;
    assert q * n == x;
  }

  lemma PathTermBounds(adj: Adjacency, p: seq<int>)
    requires WellFormed(adj) && IsWalk(adj, p)
    ensures -1.0 < SignedLength(adj, p) < 1.0
    ensures 0.0 < WalkWeight(adj, p) <= 1.0
  {
    SignSumBound(adj, p);
    QuotientInside(SignSum(adj, p) as real, |p| as real);
    WalkDegrees(adj, p);
    InvDegreeSumBound(adj, p);
    QuotientPositive(InvDegreeSum(adj, p), |p| as real);
  }

  lemma {:induction false} TotalBounds(adj: Adjacency, paths: seq<seq<int>>)
    requires WellFormed(adj)
    requires forall p :: p in paths ==> IsWalk(adj, p)
    ensures paths != [] ==> -(|paths| as real) < TotalSignedLength(adj, paths) < |paths| as real
    ensures paths != [] ==> 0.0 < TotalWalkWeight(adj, paths) <= |paths| as real
  {
    if paths != [] {
      var init := paths[..|paths| - 1];
      assert forall p :: p in init ==> p in paths;
      TotalBounds(adj, init);
      PathTermBounds(adj, paths[|paths| - 1]);
    }
  }

  /** The path features of genuine walks are bounded: the signed average
      length lies strictly between -1 and 1 (a path of n nodes has n - 1
      edges, each signed +1 or -1), the random-walk weight in (0, 1]; with no
      path both are the fallback. */
  lemma PathFeatureBounds(adj: Adjacency, paths: seq<seq<int>>, fallback: real)
    requires WellFormed(adj)
    requires forall p :: p in paths ==> IsWalk(adj, p)
    ensures paths == [] ==> PathFeatures(adj, paths, fallback) == (fallback, fallback)
    ensures paths != [] ==> -1.0 < PathFeatures(adj, paths, fallback).0 < 1.0
    ensures paths != [] ==> 0.0 < PathFeatures(adj, paths, fallback).1 <= 1.0
  {
    if paths != [] {
      TotalBounds(adj, paths);
      QuotientInside(TotalSignedLength(adj, paths), |paths| as real);
      QuotientPositive(TotalWalkWeight(adj, paths), |paths| as real);
    }
  }

  /** A triangle with edge signs s1, s2, s3 is structurally balanced when the
      signs add up to 3 (all positive) or -1 (one positive, two negative). */
  predicate Balanced(s1: int, s2: int, s3: int) {
    s1 + s2 + s3 == 3 || s1 + s2 + s3 == -1
  }

  /** Structural balance: with signs +1/-1, the sum test accepts exactly the
      triangles whose sign product is positive. */
  lemma BalancedIffPositiveProduct(s1: int, s2: int, s3: int)
    requires IsSign(s1) && IsSign(s2) && IsSign(s3)
    ensures Balanced(s1, s2, s3) <==> s1 * s2 * s3 == 1
  {
  }

  /** The common neighbours of a and b. */
  function Common(adj: Adjacency, a: int, b: int): set<int> {
    Neighbours(adj, a) * Neighbours(adj, b)
  }

  /** The nodes adjacent to a or to b: the union the clustering coefficient
      is described with. */
  function Around(adj: Adjacency, a: int, b: int): set<int> {
    Neighbours(adj, a) + Neighbours(adj, b)
  }

  /** The union get_clustering_coeff actually forms. G.neighbors returns a
      one-shot iterator: building the intersection list exhausts the one over
      a's neighbours, so the set made from it afterwards is empty, and the
      union is b's neighbourhood alone. */
  function UnionAsWritten(adj: Adjacency, a: int, b: int): set<int> {
    Neighbours(adj, b)
  }

  /** Common neighbour x closes a balanced triangle with the edge (a, b)
      signed s. */
  function BalancedAt(adj: Adjacency, a: int, b: int, s: int): int -> bool {
    x => Balanced(s, SignOf(adj, a, x), SignOf(adj, b, x))
  }

  /** Both edges from the pair to x carry sign t. */
  function AgreeAt(adj: Adjacency, a: int, b: int, t: int): int -> bool {
    x => SignOf(adj, a, x) == t && SignOf(adj, b, x) == t
  }

  lemma BalancedAtEdge(adj: Adjacency, a: int, b: int, s: int, x: int)
    requires IsEdge(adj, a, x) && IsEdge(adj, b, x)
    ensures BalancedAt(adj, a, b, s)(x) == Balanced(s, adj[a][x], adj[b][x])
  {
  }

  /** Counting one more common neighbour x adds one to the neighbours joined
      to both ends with sign t exactly when both of x's edges carry t. */
  lemma AgreeStep(adj: Adjacency, a: int, b: int, done: set<int>, x: int, t: int)
    requires IsEdge(adj, a, x) && IsEdge(adj, b, x) && x !in done
    ensures |Matching(done + {x}, AgreeAt(adj, a, b, t))| ==
      |Matching(done, AgreeAt(adj, a, b, t))| + (if adj[a][x] == t && adj[b][x] == t then 1 else 0)
  {
    MatchingAdd(done, AgreeAt(adj, a, b, t), x);
  }

  /** The counts the clustering features are made of. */
  datatype TriangleCounts = TriangleCounts(common: nat, union: nat, balanced: nat, pos: nat, neg: nat)

  /** For the pair (a, b) and edge sign s: how many common neighbours, how
      large the union get_clustering_coeff forms is, how many common
      neighbours close a balanced triangle, and how many are joined to both
      ends positively / negatively. */
  function CountsOf(adj: Adjacency, a: int, b: int, s: int): TriangleCounts {
    var common := Common(adj, a, b);
    TriangleCounts(|common|, |UnionAsWritten(adj, a, b)|,
      |Matching(common, BalancedAt(adj, a, b, s))|,
      |Matching(common, AgreeAt(adj, a, b, 1))|,
      |Matching(common, AgreeAt(adj, a, b, -1))|)
  }

  /** The first counting loop of get_clustering_coeff: how many of the
      common neighbours close a balanced triangle with the edge (a, b) signed
      s. get_clustering_coeff raises when a common neighbour is not joined to an
      endpoint; that cannot happen, which the dead branch below records. */
  method CountBalanced(adj: Adjacency, a: int, b: int, s: int, intersection: set<int>) returns (balanced: nat)
    requires forall x :: x in intersection ==> IsEdge(adj, a, x) && IsEdge(adj, b, x)
    ensures balanced == |Matching(intersection, BalancedAt(adj, a, b, s))|
  {
    balanced := 0;
    var rest := intersection;
    ghost var done: set<int> := {};
    while rest != {}
      invariant rest <= intersection && done == intersection - rest
      invariant balanced == |Matching(done, BalancedAt(adj, a, b, s))|
      decreases rest
    {
      ghost var some := Pick(rest);
      var x :| x in rest;
      if !IsEdge(adj, a, x) || !IsEdge(adj, b, x) {
        assert false;
      }
      var e1, e2 := adj[a][x], adj[b][x];
      MatchingAdd(done, BalancedAt(adj, a, b, s), x);
      BalancedAtEdge(adj, a, b, s, x);
      var sm := s + e1 + e2;
      balanced := balanced + (if sm == 3 || sm == -1 then 1 else 0);
      rest, done := rest - {x}, done + {x};
    }
    assert done == intersection;
  }

  /** The second counting loop of get_clustering_coeff (util.py only): how
      many common neighbours are joined to both ends positively, and how many
      negatively. */
  method CountAgreeing(adj: Adjacency, a: int, b: int, intersection: set<int>) returns (pos: nat, neg: nat)
    requires forall x :: x in intersection ==> IsEdge(adj, a, x) && IsEdge(adj, b, x)
    ensures pos == |Matching(intersection, AgreeAt(adj, a, b, 1))|
    ensures neg == |Matching(intersection, AgreeAt(adj, a, b, -1))|
  {
    pos, neg := 0, 0;
    var rest := intersection;
    ghost var done: set<int> := {};
    while rest != {}
      invariant rest <= intersection && done == intersection - rest
      invariant pos == |Matching(done, AgreeAt(adj, a, b, 1))|
      invariant neg == |Matching(done, AgreeAt(adj, a, b, -1))|
      decreases rest
    {
      ghost var some := Pick(rest);
      var x :| x in rest;
      var e1, e2 := adj[a][x], adj[b][x];
      AgreeStep(adj, a, b, done, x, 1);
      AgreeStep(adj, a, b, done, x, -1);
      if e1 == e2 {
        if e1 == 1 {
          pos := pos + 1;
        } else if e1 == -1 {
          neg := neg + 1;
        }
      }
      rest, done := rest - {x}, done + {x};
    }
    assert done == intersection;
  }

  /** The counts get_clustering_coeff works from, for the edge (a, b) signed
      s: the intersection and union of the two neighbour sets and the two
      counting loops over the intersection. */
  method CountTriangles(g: SignedGraph, a: int, b: int, s: int) returns (c: TriangleCounts)
    requires a in g.adj && b in g.adj
    ensures c == CountsOf(g.adj, a, b, s)
  {
    var adj := g.adj;
    var set2 := adj[b].Keys;
    var intersection := adj[a].Keys * set2;
    // the iterator over a's neighbours is exhausted by now
    var list1Rest: set<int> := {};
    var union := set2 + list1Rest;
    assert intersection == Common(adj, a, b) && union == UnionAsWritten(adj, a, b);
    var balanced := CountBalanced(adj, a, b, s, intersection);
    var pos, neg := CountAgreeing(adj, a, b, intersection);
    c := TriangleCounts(|intersection|, |union|, balanced, pos, neg);
  }

  /** The counts are consistent: balanced triangles and agreeing neighbours
      are among the common neighbours, which are among b's neighbours, and no
      neighbour agrees both ways. */
  lemma CountsOrdered(adj: Adjacency, a: int, b: int, s: int)
    ensures CountsOf(adj, a, b, s).balanced <= CountsOf(adj, a, b, s).common
    ensures CountsOf(adj, a, b, s).pos + CountsOf(adj, a, b, s).neg <= CountsOf(adj, a, b, s).common
    ensures CountsOf(adj, a, b, s).common <= CountsOf(adj, a, b, s).union
  {
    var common := Common(adj, a, b);
    var pos, neg := Matching(common, AgreeAt(adj, a, b, 1)), Matching(common, AgreeAt(adj, a, b, -1));
    SubsetSize(Matching(common, BalancedAt(adj, a, b, s)), common);
    assert pos !! neg;
    SubsetSize(pos + neg, common);
    SubsetSize(common, UnionAsWritten(adj, a, b));
  }

  lemma SubsetSize(xs: set<int>, ys: set<int>)
    requires xs <= ys
    ensures |xs| <= |ys|
  {
    assert ys == xs + (ys - xs);
  }

  /** With the edge (u, v) held out, the common neighbours of its ends are
      those of the full graph, and the union formed is v's neighbourhood
      without u, one node short of v's degree: the held-out edge never counts
      towards its own clustering features. */
  lemma HeldOutNeighbourhood(adj: Adjacency, u: int, v: int)
    requires WellFormed(adj) && IsEdge(adj, u, v)
    ensures Common(Removed(adj, u, v), u, v) == Common(adj, u, v)
    ensures UnionAsWritten(Removed(adj, u, v), u, v) == Neighbours(adj, v) - {u}
    ensures |UnionAsWritten(Removed(adj, u, v), u, v)| == Deg(adj, v) - 1
  {
    var h := Removed(adj, u, v);
    assert v in adj && u in adj[v];
    assert Neighbours(h, u) == Neighbours(adj, u) - {v};
    assert Neighbours(h, v) == Neighbours(adj, v) - {u};
    assert u !in Neighbours(adj, u) && v !in Neighbours(adj, v);
  }

  /** The counts with the union the coefficient is described with: both
      neighbourhoods together. */
  function IntendedCounts(adj: Adjacency, a: int, b: int, s: int): TriangleCounts {
    CountsOf(adj, a, b, s).(union := |Around(adj, a, b)|)
  }

  /** Swapping the ends leaves the common neighbours and the three counts
      over them unchanged. */
  lemma CountsSwap(adj: Adjacency, a: int, b: int, s: int)
    ensures CountsOf(adj, a, b, s).common == CountsOf(adj, b, a, s).common
    ensures CountsOf(adj, a, b, s).balanced == CountsOf(adj, b, a, s).balanced
    ensures CountsOf(adj, a, b, s).pos == CountsOf(adj, b, a, s).pos
    ensures CountsOf(adj, a, b, s).neg == CountsOf(adj, b, a, s).neg
  {
    var common := Common(adj, a, b);
    assert common == Common(adj, b, a);
    assert Matching(common, BalancedAt(adj, a, b, s)) == Matching(common, BalancedAt(adj, b, a, s));
    assert Matching(common, AgreeAt(adj, a, b, 1)) == Matching(common, AgreeAt(adj, b, a, 1));
    assert Matching(common, AgreeAt(adj, a, b, -1)) == Matching(common, AgreeAt(adj, b, a, -1));
  }

  /** With the described union none of the counts depends on which end of
      the edge is named first, the common neighbours stay among the union, and
      the union is at least the one get_clustering_coeff forms. */
  lemma IntendedCountsSymmetric(adj: Adjacency, a: int, b: int, s: int)
    ensures IntendedCounts(adj, a, b, s).union == IntendedCounts(adj, b, a, s).union
    ensures IntendedCounts(adj, a, b, s).common == IntendedCounts(adj, b, a, s).common
    ensures IntendedCounts(adj, a, b, s).common <= IntendedCounts(adj, a, b, s).union
    ensures CountsOf(adj, a, b, s).union <= IntendedCounts(adj, a, b, s).union
    ensures IntendedCounts(adj, a, b, s) == IntendedCounts(adj, b, a, s)
  {
    assert Around(adj, a, b) == Around(adj, b, a);
    CountsSwap(adj, a, b, s);
    SubsetSize(Common(adj, a, b), Around(adj, a, b));
    SubsetSize(UnionAsWritten(adj, a, b), Around(adj, a, b));
  }

  /** The graph with edges 1-2, 1-3, 1-4 and 2-3, all positive. */
  function Diamond(): Adjacency {
    map[1 := map[2 := 1, 3 := 1, 4 := 1], 2 := map[1 := 1, 3 := 1],
        3 := map[1 := 1, 2 := 1], 4 := map[1 := 1]]
  }

  /** Diamond with 1-2 held out. */
  lemma HeldDiamond()
    ensures Removed(Diamond(), 1, 2) ==
      map[1 := map[3 := 1, 4 := 1], 2 := map[3 := 1], 3 := map[1 := 1, 2 := 1], 4 := map[1 := 1]]
  {
    var d := Diamond();
    assert d[1] - {2} == map[3 := 1, 4 := 1];
    assert d[2] - {1} == map[3 := 1];
  }

  lemma DiamondCounts()
    ensures var held := Removed(Diamond(), 1, 2);
      && CountsOf(held, 1, 2, 1).common == 1 && CountsOf(held, 1, 2, 1).union == 1
      && IntendedCounts(held, 1, 2, 1).common == 1 && IntendedCounts(held, 1, 2, 1).union == 2
      && CountsOf(held, 2, 1, 1).union == 2
  {
    HeldDiamond();
    var held := Removed(Diamond(), 1, 2);
    assert Neighbours(held, 1) == {3, 4};
    assert Neighbours(held, 2) == {3};
    assert Common(held, 1, 2) == {3};
    assert Around(held, 1, 2) == {3, 4};
    assert |{3, 4}| == 2;
  }

  /** Holding out 1-2 of Diamond: the union formed is {3}, so the Jaccard
      ratio comes out 1.0 where both neighbourhoods, {3, 4} and {3}, give
      0.5, and it changes when the ends are swapped. */
  lemma UnionAsWrittenLosesFirstEnd()
    ensures var held := Removed(Diamond(), 1, 2);
      && Ratio(CountsOf(held, 1, 2, 1).common, CountsOf(held, 1, 2, 1).union, 0.0) == 1.0
      && Ratio(IntendedCounts(held, 1, 2, 1).common, IntendedCounts(held, 1, 2, 1).union, 0.0) == 0.5
      && CountsOf(held, 1, 2, 1).union != CountsOf(held, 2, 1, 1).union
  {
    DiamondCounts();
    HalfAndWhole();
  }

  lemma HalfAndWhole()
    ensures Ratio(1, 1, 0.0) == 1.0 && Ratio(1, 2, 0.0) == 0.5
  {
  }

  /** num / den, or the fallback when den is 0. */
  function Ratio(num: int, den: nat, fallback: real): (r: real)
    ensures den == 0 ==> r == fallback
    ensures den > 0 && 0 <= num <= den ==> 0.0 <= r <= 1.0
    ensures den > 0 && -(den as int) <= num <= den ==> -1.0 <= r <= 1.0
  {
    if den == 0 then fallback
    else
      var q := num as real / den as real;
      assert q * den as real == num as real;
      q
  }
}
