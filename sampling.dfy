/** The leave-one-out driver of util.py: every candidate edge is held out of
    the shared graph in turn, its five features are computed on what is left,
    and the edge is put back. A counter per class (lower range index, upper
    range index, sign) stops a class from contributing once it has grown past
    the sampling limit. */
module GroupSampling {
  import opened Collections
  import opened SignedGraphs
  import opened DegreeRanges
  import opened Candidates
  import opened EdgeFeatures

  /** The configuration constants: the per-class sampling limit, the
      sentinel for a feature with no value, and the longest shortest path for
      which path features are computed. */
  datatype Config = Config(groupLim: int, invalidNo: real, minPathLen: int)

  /** The five features of one held-out edge. */
  datatype Props5 = Props5(signedLength: real, walkWeight: real, jaccard: real, balance: real, agreement: real)

  datatype Record = Record(edge: SignedPair, props: Props5)

  /** (lower range index, upper range index, sign) */
  type Class = (int, int, int)

  /** The counter, which reads 0 for a class it has not seen. */
  function Get(count: map<Class, int>, c: Class): int {
    if c in count then count[c] else 0
  }

  /** The two path features of the held-out edge (u, v), on the graph adj
      that no longer has it: the sentinel when there is no path or the
      shortest one is longer than the configured bound. */
  function PathPart(adj: Adjacency, u: int, v: int, cfg: Config, search: PathSearch): (real, real) {
    match search(adj, u, v)
    case NoPath => (cfg.invalidNo, cfg.invalidNo)
    case Found(length, paths) =>
      if length > cfg.minPathLen then (cfg.invalidNo, cfg.invalidNo)
      else PathFeatures(adj, paths, cfg.invalidNo)
  }

  /** get_clustering_coeff of util.py: the Jaccard ratio of common
      neighbours over the union formed, the balanced fraction of the
      triangles, and the net agreement of common neighbours over the union.
      Each is the sentinel where its denominator is 0; for consistent counts
      the first two are fractions and the agreement lies in [-1, 1], so a
      sentinel outside [-1, 1] marks exactly the zero denominators. */
  function Clustering(c: TriangleCounts, invalid: real): (r: (real, real, real))
    ensures c.union == 0 ==> r.0 == invalid && r.2 == invalid
    ensures c.common == 0 ==> r.1 == invalid
    ensures c.balanced <= c.common <= c.union && c.pos + c.neg <= c.common ==>
      && (c.union > 0 ==> 0.0 <= r.0 <= 1.0 && -1.0 <= r.2 <= 1.0)
      && (c.common > 0 ==> 0.0 <= r.1 <= 1.0)
    ensures (invalid > 1.0 || invalid < -1.0) && c.balanced <= c.common <= c.union && c.pos + c.neg <= c.common ==>
      && (r.0 == invalid <==> c.union == 0)
      && (r.1 == invalid <==> c.common == 0)
      && (r.2 == invalid <==> c.union == 0)
  {
    (Ratio(c.common, c.union, invalid), Ratio(c.balanced, c.common, invalid),
     Ratio(c.pos - c.neg, c.union, invalid))
  }

  /** The features of candidate e, computed on the graph with e held out. */
  function Features(adj: Adjacency, e: SignedPair, cfg: Config, search: PathSearch): Props5 {
    var held := Removed(adj, e.u, e.v);
    var (p1, p2) := PathPart(held, e.u, e.v, cfg, search);
    var (p3, p4, p5) := Clustering(CountsOf(held, e.u, e.v, e.sign), cfg.invalidNo);
    Props5(p1, p2, p3, p4, p5)
  }

  /** The class of a candidate: its two range indices in increasing order and
      its sign (only used when both endpoints are covered). */
  function ClassOf(adj: Adjacency, ranges: seq<Range>, e: SignedPair): Class {
    match (FirstReaching(ranges, Deg(adj, e.u)), FirstReaching(ranges, Deg(adj, e.v)))
    case (Some(i), Some(j)) => if i > j then (j as int, i as int, e.sign) else (i as int, j as int, e.sign)
    case _ => (-1, -1, e.sign)
  }

  function FeatFn(adj: Adjacency, cfg: Config, search: PathSearch): SignedPair -> Props5 {
    e => Features(adj, e, cfg, search)
  }

  function ClassFn(adj: Adjacency, ranges: seq<Range>): SignedPair -> Class {
    e => ClassOf(adj, ranges, e)
  }

  function RecordClass(cls: SignedPair -> Class): Record -> Class {
    (r: Record) => cls(r.edge)
  }

  /** Both endpoints of e have a degree some range reaches. */
  predicate CoveredPair(adj: Adjacency, ranges: seq<Range>, e: SignedPair) {
    Covered(adj, ranges, e.u) && Covered(adj, ranges, e.v)
  }

  /** One candidate e, of class c and with features props, against the
      sampling state (records so far, class counter): skipped, changing
      nothing, when the count of c is above lim; otherwise its record is
      appended and the count of c goes up by one. */
  function Admit(state: (seq<Record>, map<Class, int>), e: SignedPair, props: Props5, c: Class, lim: int)
    : (seq<Record>, map<Class, int>)
  {
    var (recs, count) := state;
    if Get(count, c) > lim then (recs, count)
    else (recs + [Record(e, props)], count[c := Get(count, c) + 1])
  }

  lemma AdmitTaken(state: (seq<Record>, map<Class, int>), e: SignedPair, props: Props5, c: Class, lim: int)
    requires Get(state.1, c) <= lim
    ensures Admit(state, e, props, c, lim) == (state.0 + [Record(e, props)], state.1[c := Get(state.1, c) + 1])
  {
  }

  lemma AdmitSkipped(state: (seq<Record>, map<Class, int>), e: SignedPair, props: Props5, c: Class, lim: int)
    requires Get(state.1, c) > lim
    ensures Admit(state, e, props, c, lim) == state
  {
  }

  /** One group's candidates in order, from counter state count. */
  function Sample(cands: seq<SignedPair>, feat: SignedPair -> Props5, cls: SignedPair -> Class, lim: int,
                  count: map<Class, int>): (seq<Record>, map<Class, int>)
  {
    if cands == [] then ([], count)
    else
      var e := cands[|cands| - 1];
      Admit(Sample(cands[..|cands| - 1], feat, cls, lim, count), e, feat(e), cls(e), lim)
  }

  lemma SampleStep(cands: seq<SignedPair>, e: SignedPair, feat: SignedPair -> Props5, cls: SignedPair -> Class,
                   lim: int, count: map<Class, int>)
    ensures Sample(cands + [e], feat, cls, lim, count) == Admit(Sample(cands, feat, cls, lim, count), e, feat(e), cls(e), lim)
  {
    assert (cands + [e])[..|cands|] == cands;
  }

  /** All groups in the order of keys, with one counter shared by all of
      them and starting empty. */
  function SampleGroups<K(==)>(keys: seq<K>, cands: map<K, seq<SignedPair>>, feat: SignedPair -> Props5,
                               cls: SignedPair -> Class, lim: int): (map<K, seq<Record>>, map<Class, int>)
    requires forall k :: k in keys ==> k in cands
  {
    if keys == [] then (map[], map[])
    else
      var (out, c) := SampleGroups(keys[..|keys| - 1], cands, feat, cls, lim);
      var k := keys[|keys| - 1];
      var (recs, c') := Sample(cands[k], feat, cls, lim, c);
      (out[k := recs], c')
  }

  lemma SampleGroupsStep<K>(keys: seq<K>, k: K, cands: map<K, seq<SignedPair>>, feat: SignedPair -> Props5,
                                cls: SignedPair -> Class, lim: int)
    requires forall k' :: k' in keys ==> k' in cands
    requires k in cands
    ensures var (out, c) := SampleGroups(keys, cands, feat, cls, lim);
      && SampleGroups(keys + [k], cands, feat, cls, lim).0 == out[k := Sample(cands[k], feat, cls, lim, c).0]
      && SampleGroups(keys + [k], cands, feat, cls, lim).1 == Sample(cands[k], feat, cls, lim, c).1
  {
    assert (keys + [k])[..|keys|] == keys;
  }

  /** The records of the groups of keys, one group after the other. */
  function Concat<K(==)>(keys: seq<K>, out: map<K, seq<Record>>): seq<Record>
    requires forall k :: k in keys ==> k in out
  {
    if keys == [] then [] else Concat(keys[..|keys| - 1], out) + out[keys[|keys| - 1]]
  }

  /** Holding e out of the graph, computing its features and putting it back
      with its own sign: the loop body of get_properties_by_group once the
      class gate has let the candidate through. */
  method LeaveOneOut(g: SignedGraph, e: SignedPair, cfg: Config, search: PathSearch) returns (props: Props5)
    requires g.Valid() && IsSignedEdge(g.adj, e) && Honest(search)
    modifies g
    ensures g.Valid() && g.nodes == old(g.nodes) && g.adj == old(g.adj)
    ensures props == Features(old(g.adj), e, cfg, search)
  {
    ghost var adj0 := g.adj;
    g.RemoveEdge(e.u, e.v);
    ghost var held := g.adj;
    var p1, p2;
    var found := search(g.adj, e.u, e.v);
    if found.NoPath? || found.length > cfg.minPathLen {
      p1, p2 := cfg.invalidNo, cfg.invalidNo;
    } else {
      p1, p2 := PathProps(g, found.paths, cfg.invalidNo);
    }
    assert (p1, p2) == PathPart(held, e.u, e.v, cfg, search);
    var c := CountTriangles(g, e.u, e.v, e.sign);
    var (p3, p4, p5) := Clustering(c, cfg.invalidNo);
    assert e.u != e.v && IsSign(e.sign);
    g.AddEdge(e.u, e.v, e.sign);
    RestoreEdge(adj0, e.u, e.v);
    props := Props5(p1, p2, p3, p4, p5);
  }

  /** feat gives every candidate the features it has on adj once held
      out. Instantiated only where a Features term is at hand, which keeps
      the feature definitions folded in the drivers' proofs. */
  ghost predicate Probes(feat: SignedPair -> Props5, adj: Adjacency, cfg: Config, search: PathSearch) {
    forall e {:trigger Features(adj, e, cfg, search)} :: feat(e) == Features(adj, e, cfg, search)
  }

  lemma FeatFnProbes(adj: Adjacency, cfg: Config, search: PathSearch)
    ensures Probes(FeatFn(adj, cfg, search), adj, cfg, search)
  {
  }

  /** cls gives every candidate its class on adj, in the same folded way. */
  ghost predicate Classifies(cls: SignedPair -> Class, adj: Adjacency, ranges: seq<Range>) {
    forall e {:trigger ClassOf(adj, ranges, e)} :: cls(e) == ClassOf(adj, ranges, e)
  }

  lemma ClassFnClassifies(adj: Adjacency, ranges: seq<Range>)
    ensures Classifies(ClassFn(adj, ranges), adj, ranges)
  {
  }

  /** The class key of a candidate as the loop body of
      get_properties_by_group forms it: the range indices of both endpoint
      degrees, smaller first, and the sign; None when an endpoint degree is
      beyond every range. */
  method ClassKey(g: SignedGraph, e: SignedPair, ranges: seq<Range>) returns (c: Option<Class>)
    ensures c.None? <==> !CoveredPair(g.adj, ranges, e)
    ensures c.Some? ==> c.value == ClassOf(g.adj, ranges, e)
  {
    var g1 := RangeIndex(Deg(g.adj, e.u), ranges);
    var g2 := RangeIndex(Deg(g.adj, e.v), ranges);
    if g1.None? || g2.None? {
      return None;
    }
    var lo, hi := g1.value, g2.value;
    if lo > hi {
      lo, hi := hi, lo;
    }
    return Some((lo, hi, e.sign));
  }

  /** The loop body of get_properties_by_group for one candidate: it fails
      when an endpoint degree is beyond every range; otherwise the class gate
      decides whether the edge is held out and its record appended. */
  method Visit(g: SignedGraph, e: SignedPair, state: (seq<Record>, map<Class, int>), ranges: seq<Range>,
               cfg: Config, search: PathSearch, ghost feat: SignedPair -> Props5, ghost cls: SignedPair -> Class)
    returns (res: Option<(seq<Record>, map<Class, int>)>)
    requires g.Valid() && Honest(search) && IsSignedEdge(g.adj, e)
    requires Probes(feat, g.adj, cfg, search) && Classifies(cls, g.adj, ranges)
    modifies g
    ensures g.Valid() && g.nodes == old(g.nodes) && g.adj == old(g.adj)
    ensures res.None? <==> !CoveredPair(old(g.adj), ranges, e)
    ensures res.Some? ==> res.value == Admit(state, e, feat(e), cls(e), cfg.groupLim)
  {
    var key := ClassKey(g, e, ranges);
    if key.None? {
      return None;
    }
    var c := key.value;
    var (recs, count) := state;
    if Get(count, c) > cfg.groupLim {
      AdmitSkipped(state, e, feat(e), c, cfg.groupLim);
      return Some(state);
    }
    var props := Probe(g, e, cfg, search, feat);
    AdmitTaken(state, e, props, c, cfg.groupLim);
    return Some((recs + [Record(e, props)], count[c := Get(count, c) + 1]));
  }

  /** LeaveOneOut seen through a feature function feat that Probes. */
  method Probe(g: SignedGraph, e: SignedPair, cfg: Config, search: PathSearch, ghost feat: SignedPair -> Props5)
    returns (props: Props5)
    requires g.Valid() && IsSignedEdge(g.adj, e) && Honest(search) && Probes(feat, g.adj, cfg, search)
    modifies g
    ensures g.Valid() && g.nodes == old(g.nodes) && g.adj == old(g.adj)
    ensures props == feat(e)
  {
    props := LeaveOneOut(g, e, cfg, search);
  }

  /** The inner loop of get_properties_by_group: one group's candidates in
      order, with the class counter as it stands when the group starts. It
      fails when some candidate's endpoint degree is beyond every range. */
  method SampleGroup(g: SignedGraph, group: seq<SignedPair>, count0: map<Class, int>, ranges: seq<Range>,
                     cfg: Config, search: PathSearch, ghost feat: SignedPair -> Props5, ghost cls: SignedPair -> Class)
    returns (res: Option<(seq<Record>, map<Class, int>)>)
    requires g.Valid() && Honest(search) && Probes(feat, g.adj, cfg, search) && Classifies(cls, g.adj, ranges)
    requires forall i :: 0 <= i < |group| ==> IsSignedEdge(g.adj, group[i])
    modifies g
    ensures g.Valid() && g.nodes == old(g.nodes) && g.adj == old(g.adj)
    ensures res.None? <==> exists i :: 0 <= i < |group| && !CoveredPair(old(g.adj), ranges, group[i])
    ensures res.Some? ==> res.value == Sample(group, feat, cls, cfg.groupLim, count0)
    ensures res.Some? ==> AllCovered(old(g.adj), ranges, group)
  {
    ghost var adj0, nodes0 := g.adj, g.nodes;
    var state := ([], count0);
    for j := 0 to |group|
      invariant g.Valid() && g.nodes == nodes0 && g.adj == adj0
      invariant state == Sample(group[..j], feat, cls, cfg.groupLim, count0)
      invariant AllCovered(adj0, ranges, group[..j])
    {
      assert group[..j + 1] == group[..j] + [group[j]];
      SampleStep(group[..j], group[j], feat, cls, cfg.groupLim, count0);
      var step := Visit(g, group[j], state, ranges, cfg, search, feat, cls);
      if step.None? {
        return None;
      }
      AllCoveredSnoc(adj0, ranges, group[..j], group[j]);
      state := step.value;
    }
    assert group[..|group|] == group;
    return Some(state);
  }

  /** get_properties_by_group of util.py over the groups in the order of
      keys. It fails when some candidate's endpoint degree is beyond every
      range; otherwise every group gets the records Sample lets through, and
      the graph is as it was. */
  method PropertiesByGroup<K(==)>(g: SignedGraph, cands: map<K, seq<SignedPair>>, keys: seq<K>,
                                  ranges: seq<Range>, cfg: Config, search: PathSearch, ghost feat: SignedPair -> Props5)
    returns (res: Option<map<K, seq<Record>>>)
    requires g.Valid() && Honest(search) && Probes(feat, g.adj, cfg, search)
    requires Distinct(keys) && forall k :: k in cands <==> k in keys
    requires forall k, e :: k in cands && e in cands[k] ==> IsSignedEdge(g.adj, e)
    modifies g
    ensures g.Valid() && g.nodes == old(g.nodes) && g.adj == old(g.adj)
    ensures res.None? <==> exists k, e :: k in cands && e in cands[k] && !CoveredPair(old(g.adj), ranges, e)
    ensures res.Some? ==>
      res.value == SampleGroups(keys, cands, feat, ClassFn(old(g.adj), ranges), cfg.groupLim).0
  {
    ghost var adj0, nodes0 := g.adj, g.nodes;
    ghost var cls := ClassFn(adj0, ranges);
    ClassFnClassifies(adj0, ranges);
    var out: map<K, seq<Record>> := map[];
    var count: map<Class, int> := map[];
    for t := 0 to |keys|
      invariant g.Valid() && g.nodes == nodes0 && g.adj == adj0
      invariant out == SampleGroups(keys[..t], cands, feat, cls, cfg.groupLim).0
      invariant count == SampleGroups(keys[..t], cands, feat, cls, cfg.groupLim).1
      invariant GroupsCovered(adj0, ranges, cands, keys[..t])
    {
      var k := keys[t];
      assert keys[..t + 1] == keys[..t] + [k];
      SampleGroupsStep(keys[..t], k, cands, feat, cls, cfg.groupLim);
      var group := cands[k];
      assert forall i :: 0 <= i < |group| ==> group[i] in cands[k];
      var step := SampleGroup(g, group, count, ranges, cfg, search, feat, cls);
      if step.None? {
        ghost var i :| 0 <= i < |group| && !CoveredPair(adj0, ranges, group[i]);
        assert k in cands && group[i] in cands[k];
        return None;
      }
      GroupsCoveredSnoc(adj0, ranges, cands, keys[..t], k);
      out, count := out[k := step.value.0], step.value.1;
    }
    assert keys[..|keys|] == keys;
    forall k, e | k in cands && e in cands[k]
      ensures CoveredPair(adj0, ranges, e)
    {
      assert AllCovered(adj0, ranges, cands[k]);
    }
    return Some(out);
  }

  /** Every candidate of the group has both endpoint degrees covered. */
  predicate AllCovered(adj: Adjacency, ranges: seq<Range>, group: seq<SignedPair>) {
    forall e :: e in group ==> CoveredPair(adj, ranges, e)
  }

  /** Every group of ks has all its candidates covered. */
  ghost predicate GroupsCovered<K>(adj: Adjacency, ranges: seq<Range>, cands: map<K, seq<SignedPair>>, ks: seq<K>) {
    forall k :: k in ks ==> k in cands && AllCovered(adj, ranges, cands[k])
  }

  lemma GroupsCoveredSnoc<K>(adj: Adjacency, ranges: seq<Range>, cands: map<K, seq<SignedPair>>, ks: seq<K>, k: K)
    requires GroupsCovered(adj, ranges, cands, ks) && k in cands && AllCovered(adj, ranges, cands[k])
    ensures GroupsCovered(adj, ranges, cands, ks + [k])
  {
  }

  lemma AllCoveredSnoc(adj: Adjacency, ranges: seq<Range>, xs: seq<SignedPair>, e: SignedPair)
    requires AllCovered(adj, ranges, xs) && CoveredPair(adj, ranges, e)
    ensures AllCovered(adj, ranges, xs + [e])
  {
  }

  /** A skipped candidate leaves the counter as it was and a processed one
      raises one class by one, so no class count ever goes down. */
  lemma {:induction false} SampleGrows(cands: seq<SignedPair>, feat: SignedPair -> Props5, cls: SignedPair -> Class,
                                       lim: int, count: map<Class, int>, c: Class)
    ensures Get(count, c) <= Get(Sample(cands, feat, cls, lim, count).1, c)
  {
    if cands != [] {
      SampleGrows(cands[..|cands| - 1], feat, cls, lim, count, c);
    }
  }

  /** The gate: a class whose count starts at most lim + 1 ends at most
      lim + 1, since a record is only added while the count is at most lim. */
  lemma {:induction false} SampleCap(cands: seq<SignedPair>, feat: SignedPair -> Props5, cls: SignedPair -> Class,
                                     lim: int, count: map<Class, int>, c: Class)
    requires Get(count, c) <= lim + 1
    ensures Get(Sample(cands, feat, cls, lim, count).1, c) <= lim + 1
  {
    if cands != [] {
      SampleCap(cands[..|cands| - 1], feat, cls, lim, count, c);
    }
  }

  /** The counter rises by exactly one per record: the records of class c in
      the output number the growth of c's count. */
  lemma {:induction false} SampleTally(cands: seq<SignedPair>, feat: SignedPair -> Props5, cls: SignedPair -> Class,
                                       lim: int, count: map<Class, int>, c: Class)
    ensures |Filter(Sample(cands, feat, cls, lim, count).0, RecordClass(cls), c)| ==
      Get(Sample(cands, feat, cls, lim, count).1, c) - Get(count, c)
  {
    if cands != [] {
      var init := cands[..|cands| - 1];
      SampleTally(init, feat, cls, lim, count, c);
      var (recs, cnt) := Sample(init, feat, cls, lim, count);
      var e := cands[|cands| - 1];
      if Get(cnt, cls(e)) <= lim {
        var r := Record(e, feat(e));
        assert (recs + [r])[..|recs|] == recs;
      }
    }
  }

  /** Every record is a candidate with its own features, in candidate order
      of appearance, and a candidate without a record was skipped because its
      class count had grown past lim. */
  lemma {:induction false} SampleRecords(cands: seq<SignedPair>, feat: SignedPair -> Props5, cls: SignedPair -> Class,
                                         lim: int, count: map<Class, int>)
    ensures forall r :: r in Sample(cands, feat, cls, lim, count).0 ==> r.edge in cands && r.props == feat(r.edge)
    ensures forall e :: e in cands && Record(e, feat(e)) !in Sample(cands, feat, cls, lim, count).0 ==>
      Get(Sample(cands, feat, cls, lim, count).1, cls(e)) > lim
  {
    if cands != [] {
      var init := cands[..|cands| - 1];
      SampleRecords(init, feat, cls, lim, count);
      var (recs, cnt) := Sample(init, feat, cls, lim, count);
      var last := cands[|cands| - 1];
      assert cands == init + [last];
      forall e | e in cands && Record(e, feat(e)) !in Sample(cands, feat, cls, lim, count).0
        ensures Get(Sample(cands, feat, cls, lim, count).1, cls(e)) > lim
      {
        if e in init {
          assert Record(e, feat(e)) !in recs;
          if Get(cnt, cls(last)) <= lim {
            assert Get(cnt, cls(e)) <= Get(cnt[cls(last) := Get(cnt, cls(last)) + 1], cls(e));
          }
        }
      }
    }
  }


  lemma {:induction false} ConcatFrame<K>(keys: seq<K>, out: map<K, seq<Record>>, k: K, recs: seq<Record>)
    requires forall k' :: k' in keys ==> k' in out
    requires k !in keys
    ensures Concat(keys, out[k := recs]) == Concat(keys, out)
  {
    if keys != [] {
      ConcatFrame(keys[..|keys| - 1], out, k, recs);
    }
  }

  /** Over the whole run the counter of class c holds exactly the number of
      class-c records in all groups together, and never exceeds lim + 1 (nor
      0 when lim is below -1): at most GROUP_LIM + 1 records per class. */
  lemma {:induction false} SampleGroupsCap<K>(keys: seq<K>, cands: map<K, seq<SignedPair>>, feat: SignedPair -> Props5,
                                              cls: SignedPair -> Class, lim: int, c: Class)
    requires Distinct(keys) && forall k :: k in keys ==> k in cands
    ensures forall k :: k in keys ==> k in SampleGroups(keys, cands, feat, cls, lim).0
    ensures |Filter(Concat(keys, SampleGroups(keys, cands, feat, cls, lim).0), RecordClass(cls), c)| ==
      Get(SampleGroups(keys, cands, feat, cls, lim).1, c)
    ensures Get(SampleGroups(keys, cands, feat, cls, lim).1, c) <= if lim + 1 > 0 then lim + 1 else 0
  {
    if keys != [] {
      var init, k := keys[..|keys| - 1], keys[|keys| - 1];
      assert forall k' :: k' in init ==> k' in keys;
      SampleGroupsCap(init, cands, feat, cls, lim, c);
      var (out, cnt) := SampleGroups(init, cands, feat, cls, lim);
      var (recs, cnt') := Sample(cands[k], feat, cls, lim, cnt);
      assert k !in init;
      ConcatFrame(init, out, k, recs);
      FilterConcat(Concat(init, out), recs, RecordClass(cls), c);
      SampleTally(cands[k], feat, cls, lim, cnt, c);
      if lim + 1 > 0 {
        SampleCap(cands[k], feat, cls, lim, cnt, c);
      } else {
        SampleCapNothing(cands[k], feat, cls, lim, cnt, c);
      }
    }
  }

  /** With lim below -1 nothing ever passes the gate of an unseen class. */
  lemma {:induction false} SampleCapNothing(cands: seq<SignedPair>, feat: SignedPair -> Props5, cls: SignedPair -> Class,
                                            lim: int, count: map<Class, int>, c: Class)
    requires lim + 1 <= 0 && Get(count, c) <= 0
    ensures Get(Sample(cands, feat, cls, lim, count).1, c) <= 0
  {
    if cands != [] {
      SampleCapNothing(cands[..|cands| - 1], feat, cls, lim, count, c);
    }
  }

  /** The paths the honest search reports for a held-out edge never use
      that edge. */
  lemma HeldOutEdgeUnused(adj: Adjacency, e: SignedPair, search: PathSearch, p: seq<int>, i: int)
    requires WellFormed(adj) && IsEdge(adj, e.u, e.v) && Honest(search)
    requires search(Removed(adj, e.u, e.v), e.u, e.v).Found? && p in search(Removed(adj, e.u, e.v), e.u, e.v).paths
    requires 1 <= i < |p|
    ensures !(p[i - 1] == e.u && p[i] == e.v) && !(p[i - 1] == e.v && p[i] == e.u)
  {
    RemovedWellFormed(adj, e.u, e.v);
    assert IsEdge(Removed(adj, e.u, e.v), p[i - 1], p[i]);
  }

  /** The path features of a held-out edge are the sentinel or within the
      bounds of PathFeatureBounds. */
  lemma PathPartBounds(held: Adjacency, u: int, v: int, cfg: Config, search: PathSearch)
    requires WellFormed(held) && Honest(search)
    ensures var (p1, p2) := PathPart(held, u, v, cfg, search);
      && (p1 == cfg.invalidNo || -1.0 < p1 < 1.0)
      && (p2 == cfg.invalidNo || 0.0 < p2 <= 1.0)
  {
    match search(held, u, v)
    case NoPath =>
    case Found(length, paths) =>
      if length <= cfg.minPathLen {
        PathFeatureBounds(held, paths, cfg.invalidNo);
      }
  }

  /** The bounds of the features of one held-out edge: path features as in
      PathFeatureBounds (or the sentinel), the Jaccard and balanced fractions
      in [0, 1] and the agreement in [-1, 1], each the sentinel when its
      denominator is 0. */
  lemma FeatureBounds(adj: Adjacency, e: SignedPair, cfg: Config, search: PathSearch)
    requires WellFormed(adj) && IsSignedEdge(adj, e) && Honest(search)
    ensures var f := Features(adj, e, cfg, search);
      && (f.signedLength == cfg.invalidNo || -1.0 < f.signedLength < 1.0)
      && (f.walkWeight == cfg.invalidNo || 0.0 < f.walkWeight <= 1.0)
      && (f.jaccard == cfg.invalidNo || 0.0 <= f.jaccard <= 1.0)
      && (f.balance == cfg.invalidNo || 0.0 <= f.balance <= 1.0)
      && (f.agreement == cfg.invalidNo || -1.0 <= f.agreement <= 1.0)
  {
    var held := Removed(adj, e.u, e.v);
    RemovedWellFormed(adj, e.u, e.v);
    PathPartBounds(held, e.u, e.v, cfg, search);
    var c := CountsOf(held, e.u, e.v, e.sign);
    CountsOrdered(held, e.u, e.v, e.sign);
  }
}
