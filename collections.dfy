/** Generic sequence helpers shared by the model: an Option type, filtering a
    sequence by a label, mapping, sums, and the fact that splitting a sequence
    by labels and concatenating the pieces is a permutation of it. */
module Collections {

  datatype Option<T> = None | Some(value: T)

  predicate Distinct<T(==)>(s: seq<T>) {
    forall i, j :: 0 <= i < j < |s| ==> s[i] != s[j]
  }

  /** A member of a non-empty set. */
  lemma Pick<T>(s: set<T>) returns (x: T)
    requires s != {}
    ensures x in s
  {
    assert exists y :: y in s && y !in {};
    x :| x in s;
  }

  /** Extending a prefix by one element. */
  lemma PrefixSnoc<T>(s: seq<T>, i: nat)
    requires i < |s|
    ensures s[..i + 1] == s[..i] + [s[i]]
    ensures s[..i + 1][..i] == s[..i]
  {
  }

  /** The elements of xs whose label under f is k, in their original order. */
  function Filter<T(==,!new), L(==)>(xs: seq<T>, f: T -> L, k: L): (r: seq<T>)
    ensures |r| <= |xs|
  {
    if xs == [] then []
    else
      var last := xs[|xs| - 1];
      Filter(xs[..|xs| - 1], f, k) + (if f(last) == k then [last] else [])
  }

  /** Filtering one more element. */
  lemma FilterSnoc<T(!new), L>(xs: seq<T>, x: T, f: T -> L, k: L)
    ensures Filter(xs + [x], f, k) == Filter(xs, f, k) + (if f(x) == k then [x] else [])
  {
    assert (xs + [x])[..|xs|] == xs;
  }

  /** x is kept by Filter exactly when it occurs in xs with label k. */
  lemma {:induction false} FilterMembers<T(!new), L>(xs: seq<T>, f: T -> L, k: L, x: T)
    ensures x in Filter(xs, f, k) <==> x in xs && f(x) == k
  {
    if xs != [] {
      var init := xs[..|xs| - 1];
      FilterMembers(init, f, k, x);
      assert xs == init + [xs[|xs| - 1]];
    }
  }

  /** The elements of xs whose label lies in ks, in their original order. */
  function FilterIn<T, L(==)>(xs: seq<T>, f: T -> L, ks: set<L>): seq<T>
  {
    if xs == [] then []
    else
      var last := xs[|xs| - 1];
      FilterIn(xs[..|xs| - 1], f, ks) + (if f(last) in ks then [last] else [])
  }

  /** The pieces Filter(xs, f, k) for k in ks, concatenated in the order of ks. */
  function FilterAll<T(==,!new), L(==)>(xs: seq<T>, f: T -> L, ks: seq<L>): seq<T>
  {
    if ks == [] then []
    else FilterAll(xs, f, ks[..|ks| - 1]) + Filter(xs, f, ks[|ks| - 1])
  }

  function MapSeq<T, U>(xs: seq<T>, f: T -> U): (r: seq<U>)
    ensures |r| == |xs|
    ensures forall i :: 0 <= i < |xs| ==> r[i] == f(xs[i])
  {
    if xs == [] then [] else MapSeq(xs[..|xs| - 1], f) + [f(xs[|xs| - 1])]
  }

  function Sum(s: seq<int>): int {
    if s == [] then 0 else Sum(s[..|s| - 1]) + s[|s| - 1]
  }

  /** Adding one to a single slot adds one to the total. */
  lemma {:induction false} SumIncrement(s: seq<int>, k: nat)
    requires k < |s|
    ensures Sum(s[k := s[k] + 1]) == Sum(s) + 1
  {
    var t := s[k := s[k] + 1];
    if k == |s| - 1 {
      assert t[..|t| - 1] == s[..|s| - 1];
    } else {
      assert t[..|t| - 1] == s[..|s| - 1][k := s[k] + 1];
      SumIncrement(s[..|s| - 1], k);
    }
  }

  lemma {:induction false} SumZeros(n: nat)
    ensures Sum(seq(n, _ => 0)) == 0
  {
    if n > 0 {
      assert seq(n, _ => 0)[..n - 1] == seq(n - 1, _ => 0);
      SumZeros(n - 1);
    }
  }

  lemma {:induction false} FilterInSplit<T(!new), L>(xs: seq<T>, f: T -> L, ks: set<L>, k: L)
    requires k !in ks
    ensures multiset(FilterIn(xs, f, ks + {k})) == multiset(FilterIn(xs, f, ks)) + multiset(Filter(xs, f, k))
  {
    if xs != [] {
      FilterInSplit(xs[..|xs| - 1], f, ks, k);
    }
  }

  lemma {:induction false} FilterInEverything<T, L>(xs: seq<T>, f: T -> L, ks: set<L>)
    requires forall x :: x in xs ==> f(x) in ks
    ensures FilterIn(xs, f, ks) == xs
  {
    if xs != [] {
      var init, last := xs[..|xs| - 1], xs[|xs| - 1];
      assert xs == init + [last];
      FilterInEverything(init, f, ks);
      assert f(last) in ks;
    }
  }

  lemma {:induction false} FilterAllIsFilterIn<T(!new), L>(xs: seq<T>, f: T -> L, ks: seq<L>)
    requires Distinct(ks)
    ensures multiset(FilterAll(xs, f, ks)) == multiset(FilterIn(xs, f, set k | k in ks))
  {
    if ks == [] {
      assert (set k | k in ks) == {};
      FilterInNothing(xs, f);
    } else {
      var init, last := ks[..|ks| - 1], ks[|ks| - 1];
      FilterAllIsFilterIn(xs, f, init);
      assert (set k | k in ks) == (set k | k in init) + {last};
      FilterInSplit(xs, f, (set k | k in init), last);
    }
  }

  lemma {:induction false} FilterInNothing<T, L>(xs: seq<T>, f: T -> L)
    ensures FilterIn(xs, f, {}) == []
  {
    if xs != [] {
      FilterInNothing(xs[..|xs| - 1], f);
    }
  }

  /** Splitting xs by a labelling f into one piece per label of ks, and
      concatenating the pieces, rearranges xs: when ks lists every label once,
      every element lands in exactly one piece. */
  lemma FilterAllPermutes<T(!new), L>(xs: seq<T>, f: T -> L, ks: seq<L>)
    requires Distinct(ks)
    requires forall x :: x in xs ==> f(x) in ks
    ensures multiset(FilterAll(xs, f, ks)) == multiset(xs)
    ensures |FilterAll(xs, f, ks)| == |xs|
  {
    FilterAllIsFilterIn(xs, f, ks);
    FilterInEverything(xs, f, (set k | k in ks));
    assert |multiset(FilterAll(xs, f, ks))| == |multiset(xs)|;
  }

  /** The members of xs that keep accepts. */
  function Matching<T(==)>(xs: set<T>, keep: T -> bool): (r: set<T>)
    ensures r <= xs
  {
    set x | x in xs && keep(x)
  }

  /** Adding a fresh member x adds it to the matching members exactly when
      keep accepts it. */
  lemma MatchingAdd<T>(xs: set<T>, keep: T -> bool, x: T)
    requires x !in xs
    ensures |Matching(xs + {x}, keep)| == |Matching(xs, keep)| + (if keep(x) then 1 else 0)
  {
    if keep(x) {
      assert Matching(xs + {x}, keep) == Matching(xs, keep) + {x};
    } else {
      assert Matching(xs + {x}, keep) == Matching(xs, keep);
    }
  }

  /** Filtering distributes over concatenation. */
  lemma {:induction false} FilterConcat<T(!new), L>(xs: seq<T>, ys: seq<T>, f: T -> L, k: L)
    ensures Filter(xs + ys, f, k) == Filter(xs, f, k) + Filter(ys, f, k)
  {
    if ys == [] {
      assert xs + ys == xs;
    } else {
      var init := ys[..|ys| - 1];
      FilterConcat(xs, init, f, k);
      assert (xs + ys)[..|xs + ys| - 1] == xs + init;
      assert (xs + ys)[|xs + ys| - 1] == ys[|ys| - 1];
    }
  }
}
