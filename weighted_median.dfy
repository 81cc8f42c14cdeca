/** `Mutect2Filter.weightedMedianPosteriorProbability`: the lowest posterior probability
    of artifact that accounts for samples holding half of the total alt depth. */
module WeightedMedianReducer {
  import opened Depths
  import opened StableSort

  /** Twice the depth of the first `k + 1` pairs of `s` is at least `total`. */
  predicate ReachesHalf(s: Pairs, total: int, k: int) {
    0 <= k < |s| && 2 * TotalDepth(s[..k + 1]) >= total
  }

  /** `k` is the first position of `s` at which twice the running depth reaches `total`. */
  predicate FirstReach(s: Pairs, total: int, k: int) {
    ReachesHalf(s, total, k) && forall j :: 0 <= j < k ==> !ReachesHalf(s, total, j)
  }

  /** The cumulative scan from position `i` on: the posterior at the first position where
      twice the running depth reaches `total`, and 0 when no position does. */
  function ScanFrom(s: Pairs, total: int, i: nat): (r: real)
    requires i <= |s|
    ensures r == 0.0 || exists k :: i <= k < |s| && ReachesHalf(s, total, k) && r == s[k].posterior
    decreases |s| - i
  {
    if i == |s| then 0.0
    else if ReachesHalf(s, total, i) then s[i].posterior
    else ScanFrom(s, total, i + 1)
  }

  /** The value the reducer returns for the argument list `s`: the total is taken over `s`,
      the scan runs over `s` stably sorted by posterior. */
  function WeightedMedian(s: Pairs): (r: real)
    ensures r == 0.0 || exists x :: x in s && x.posterior == r
  {
    var t := SortByPosterior(s);
    var r := ScanFrom(t, TotalDepth(s), 0);
    PermutationMember(s, t, r);
    r
  }

  /** A posterior found in a rearrangement of the pairs is the posterior of one of them. */
  lemma PermutationMember(s: Pairs, t: Pairs, r: real)
    requires multiset(t) == multiset(s)
    requires r == 0.0 || exists k :: 0 <= k < |t| && ReachesHalf(t, TotalDepth(s), k) && r == t[k].posterior
    ensures r == 0.0 || exists x :: x in s && x.posterior == r
  {
    if r != 0.0 {
      var k :| 0 <= k < |t| && ReachesHalf(t, TotalDepth(s), k) && r == t[k].posterior;
      assert t[k] in multiset(s);
    }
  }

  /** The order-statistic meaning of the reducer: `r` is the posterior of some pair, the
      pairs with posterior at most `r` hold at least half of the total depth, and for every
      smaller posterior of the input they hold less than half. It depends only on the
      multiset of pairs. */
  ghost predicate IsLowerWeightedMedian(s: Pairs, r: real) {
    && (exists x :: x in s && x.posterior == r)
    && 2 * DepthAtMost(s, r) >= TotalDepth(s)
    && forall x :: x in s && x.posterior < r ==> 2 * DepthAtMost(s, x.posterior) < TotalDepth(s)
  }

  /** The scan returns the posterior at the first position that reaches half the total. */
  lemma {:induction false} ScanFromFirstReach(s: Pairs, total: int, i: nat, k: nat)
    requires i <= k
    requires FirstReach(s, total, k)
    ensures ScanFrom(s, total, i) == s[k].posterior
    decreases k - i
  {
    if i < k {
      assert !ReachesHalf(s, total, i);
      ScanFromFirstReach(s, total, i + 1, k);
    }
  }

  /** When no position reaches half the total, the scan falls through to 0. */
  lemma {:induction false} ScanFromNoReach(s: Pairs, total: int, i: nat)
    requires i <= |s|
    requires forall j :: i <= j < |s| ==> !ReachesHalf(s, total, j)
    ensures ScanFrom(s, total, i) == 0.0
    decreases |s| - i
  {
    if i < |s| {
      ScanFromNoReach(s, total, i + 1);
    }
  }

  /** If some position reaches half the total, a first one does. */
  lemma {:induction false} FirstReachExists(s: Pairs, total: int, k: nat)
    requires ReachesHalf(s, total, k)
    ensures exists f :: 0 <= f <= k && FirstReach(s, total, f)
    decreases k
  {
    if exists j :: 0 <= j < k && ReachesHalf(s, total, j) {
      var j :| 0 <= j < k && ReachesHalf(s, total, j);
      FirstReachExists(s, total, j);
    } else {
      assert FirstReach(s, total, k);
    }
  }

  /** With non-negative depths the last position always reaches half the total, so the
      scan never falls through. */
  lemma LastPositionReachesHalf(s: Pairs)
    requires s != [] && NonNegativeDepths(s)
    ensures ReachesHalf(s, TotalDepth(s), |s| - 1)
  {
    assert s[..|s|] == s;
  }

  /** A sorted sequence splits into the pairs at most `p` followed by the others. */
  lemma SortedSplit(t: Pairs, p: real) returns (m: nat)
    requires SortedByPosterior(t)
    ensures m <= |t| && AtMost(t, p) == t[..m]
    ensures forall i :: 0 <= i < m ==> t[i].posterior <= p
    ensures forall i :: m <= i < |t| ==> t[i].posterior > p
  {
    m := 0;
    while m < |t| && t[m].posterior <= p
      invariant m <= |t|
      invariant forall i :: 0 <= i < m ==> t[i].posterior <= p
    {
      m := m + 1;
    }
    AtMostPrefix(t, p, m);
  }

  /** On sorted pairs with non-negative depths, the first position that reaches half the
      total holds the lower weighted median. */
  lemma SortedFirstReachIsLowerWeightedMedian(t: Pairs, k: nat)
    requires SortedByPosterior(t) && NonNegativeDepths(t)
    requires FirstReach(t, TotalDepth(t), k)
    ensures IsLowerWeightedMedian(t, t[k].posterior)
  {
    var r, total := t[k].posterior, TotalDepth(t);
    assert t[k] in t;
    var m := SortedSplit(t, r);
    TotalDepthPrefixMonotone(t, k + 1, m);
    forall x | x in t && x.posterior < r
      ensures 2 * DepthAtMost(t, x.posterior) < total
    {
      BelowFirstReach(t, k, x);
    }
  }

  /** On sorted pairs, a posterior below the one at the first reaching position holds
      less than half the total. */
  lemma BelowFirstReach(t: Pairs, k: nat, x: DepthAndPosterior)
    requires SortedByPosterior(t)
    requires FirstReach(t, TotalDepth(t), k)
    requires x in t && x.posterior < t[k].posterior
    ensures 2 * DepthAtMost(t, x.posterior) < TotalDepth(t)
  {
    var i :| 0 <= i < |t| && t[i] == x;
    var m := SortedSplit(t, x.posterior);
    assert 0 < m <= k;
    assert !ReachesHalf(t, TotalDepth(t), m - 1);
  }

  /** The order-statistic meaning does not depend on the order of the pairs. */
  lemma LowerWeightedMedianPermutation(s: Pairs, t: Pairs, r: real)
    requires multiset(s) == multiset(t)
    requires IsLowerWeightedMedian(s, r)
    ensures IsLowerWeightedMedian(t, r)
  {
    SumsPermutation(s, t);
    forall p
      ensures DepthAtMost(s, p) == DepthAtMost(t, p)
    {
      DepthAtMostPermutation(s, t, p);
    }
    var x :| x in s && x.posterior == r;
    assert x in multiset(t);
    forall y | y in t && y.posterior < r
      ensures 2 * DepthAtMost(t, y.posterior) < TotalDepth(t)
    {
      assert y in multiset(s);
    }
  }

  /** At most one probability has the order-statistic meaning. */
  lemma LowerWeightedMedianUnique(s: Pairs, r1: real, r2: real)
    requires IsLowerWeightedMedian(s, r1) && IsLowerWeightedMedian(s, r2)
    ensures r1 == r2
  {
    var x1 :| x1 in s && x1.posterior == r1;
    var x2 :| x2 in s && x2.posterior == r2;
  }

  /** Any non-empty input with non-negative depths: the reducer returns the lower weighted
      median, so in particular the posterior of one of the input pairs (never the fallback
      0), between the smallest and the largest input posterior. */
  lemma WeightedMedianIsLowerWeightedMedian(s: Pairs)
    requires s != [] && NonNegativeDepths(s)
    ensures IsLowerWeightedMedian(s, WeightedMedian(s))
    ensures exists x :: x in s && x.posterior == WeightedMedian(s)
  {
    var t := SortByPosterior(s);
    SumsPermutation(s, t);
    SortByPosteriorSorted(s);
    assert NonNegativeDepths(t) by {
      forall x | x in t ensures x.depth >= 0 {
        assert x in multiset(s);
      }
    }
    LastPositionReachesHalf(t);
    FirstReachExists(t, TotalDepth(t), |t| - 1);
    var k :| 0 <= k <= |t| - 1 && FirstReach(t, TotalDepth(t), k);
    ScanFromFirstReach(t, TotalDepth(s), 0, k);
    SortedFirstReachIsLowerWeightedMedian(t, k);
    LowerWeightedMedianPermutation(t, s, t[k].posterior);
  }

  /** For non-negative depths the result does not depend on the order of the input pairs. */
  lemma WeightedMedianPermutation(s: Pairs, t: Pairs)
    requires multiset(s) == multiset(t)
    requires NonNegativeDepths(s)
    ensures WeightedMedian(s) == WeightedMedian(t)
  {
    if s == [] {
      assert |t| == |multiset(t)| == 0;
    } else {
      assert t != [] by {
        assert s[0] in multiset(t);
      }
      assert NonNegativeDepths(t) by {
        forall x | x in t ensures x.depth >= 0 {
          assert x in multiset(s);
        }
      }
      WeightedMedianIsLowerWeightedMedian(s);
      WeightedMedianIsLowerWeightedMedian(t);
      LowerWeightedMedianPermutation(t, s, WeightedMedian(t));
      LowerWeightedMedianUnique(s, WeightedMedian(s), WeightedMedian(t));
    }
  }

  /** A non-empty input whose depths are all 0 yields the smallest posterior, not 0. */
  lemma WeightedMedianZeroTotal(s: Pairs)
    requires s != [] && NonNegativeDepths(s)
    requires TotalDepth(s) == 0
    ensures exists x :: x in s && x.posterior == WeightedMedian(s)
    ensures forall x :: x in s ==> WeightedMedian(s) <= x.posterior
  {
    WeightedMedianIsLowerWeightedMedian(s);
    forall x | x in s
      ensures WeightedMedian(s) <= x.posterior
    {
    }
  }

  /** The reducer on an empty list takes the fall-through: 0. */
  lemma WeightedMedianEmpty()
    ensures WeightedMedian([]) == 0.0
  {
  }

  /** A single pair gives its own posterior. */
  lemma WeightedMedianSingle(d: int32, p: real)
    requires d >= 0
    ensures WeightedMedian([DepthAndPosterior(d, p)]) == p
  {
    var s := [DepthAndPosterior(d, p)];
    assert SortByPosterior(s) == s;
    assert s[..1] == s;
    assert ReachesHalf(s, TotalDepth(s), 0);
  }

  lemma SortTwo(x: DepthAndPosterior, y: DepthAndPosterior)
    requires x.posterior < y.posterior
    ensures SortByPosterior([x, y]) == [x, y]
    ensures SortByPosterior([y, x]) == [x, y]
  {
    assert [x, y][1..] == [y] && [y, x][1..] == [x];
    assert SortByPosterior([y]) == [y] by {
      assert [y][1..] == [];
    }
    assert SortByPosterior([x]) == [x] by {
      assert [x][1..] == [];
    }
    assert Insert(y, [x]) == [x] + Insert(y, []) by {
      assert [x][1..] == [];
    }
  }

  lemma TotalDepthTwo(x: DepthAndPosterior, y: DepthAndPosterior)
    ensures TotalDepth([x, y]) == x.depth as int + y.depth as int
    ensures TotalDepth([x, y][..1]) == x.depth as int
  {
    SumsSingleton(x);
    SumsSingleton(y);
    SumsConcat([x], [y]);
    assert [x, y] == [x] + [y];
    assert [x, y][..1] == [x];
  }

  /** Two pairs with different posteriors and non-negative depths, in either order: the
      lower posterior is returned exactly when its pair holds at least half of the depth. */
  lemma WeightedMedianTwoPairs(x: DepthAndPosterior, y: DepthAndPosterior)
    requires x.posterior < y.posterior
    requires x.depth >= 0 && y.depth >= 0
    ensures WeightedMedian([x, y]) == WeightedMedian([y, x])
    ensures WeightedMedian([x, y]) ==
              if 2 * (x.depth as int) >= x.depth as int + y.depth as int then x.posterior else y.posterior
  {
    var s := [x, y];
    SortTwo(x, y);
    TotalDepthTwo(x, y);
    TotalDepthTwo(y, x);
    var total := x.depth as int + y.depth as int;
    assert TotalDepth(s) == TotalDepth([y, x]) == total;
    if 2 * (x.depth as int) >= total {
      assert FirstReach(s, total, 0);
      ScanFromFirstReach(s, total, 0, 0);
    } else {
      assert s[..2] == s;
      assert FirstReach(s, total, 1);
      ScanFromFirstReach(s, total, 0, 1);
    }
  }

  /** At an exact half-depth tie the lower posterior wins; a pair holding three quarters of
      the depth decides alone; depths of 0 give the smaller posterior; all whatever the
      input order. */
  lemma WeightedMedianTwoPairExamples()
    ensures WeightedMedian([DepthAndPosterior(1, 0.1), DepthAndPosterior(1, 0.9)]) == 0.1
    ensures WeightedMedian([DepthAndPosterior(1, 0.9), DepthAndPosterior(1, 0.1)]) == 0.1
    ensures WeightedMedian([DepthAndPosterior(3, 0.2), DepthAndPosterior(1, 0.8)]) == 0.2
    ensures WeightedMedian([DepthAndPosterior(1, 0.8), DepthAndPosterior(3, 0.2)]) == 0.2
    ensures WeightedMedian([DepthAndPosterior(0, 0.6), DepthAndPosterior(0, 0.3)]) == 0.3
    ensures WeightedMedian([DepthAndPosterior(0, 0.3), DepthAndPosterior(0, 0.6)]) == 0.3
  {
    WeightedMedianTwoPairs(DepthAndPosterior(1, 0.1), DepthAndPosterior(1, 0.9));
    WeightedMedianTwoPairs(DepthAndPosterior(3, 0.2), DepthAndPosterior(1, 0.8));
    WeightedMedianTwoPairs(DepthAndPosterior(0, 0.3), DepthAndPosterior(0, 0.6));
  }

  lemma SortThreeTie(x: DepthAndPosterior, y: DepthAndPosterior, z: DepthAndPosterior)
    requires x.posterior == y.posterior < z.posterior
    ensures SortByPosterior([x, y, z]) == [x, y, z]
  {
    assert [x, y, z][1..] == [y, z] && [y, z][1..] == [z] && [z][1..] == [];
    assert SortByPosterior([z]) == [z];
    assert SortByPosterior([y, z]) == [y, z];
  }

  lemma TotalDepthThree(x: DepthAndPosterior, y: DepthAndPosterior, z: DepthAndPosterior)
    ensures TotalDepth([x, y, z]) == x.depth as int + y.depth as int + z.depth as int
    ensures TotalDepth([x, y, z][..2]) == x.depth as int + y.depth as int
    ensures TotalDepth([x, y, z][..1]) == x.depth as int
  {
    TotalDepthTwo(x, y);
    assert [x, y, z][..2] == [x, y] && [x, y, z][..1] == [x, y][..1];
    assert [x, y, z][..2] == [x, y, z][..|[x, y, z]| - 1];
  }

  /** Negative depths, which the Java `Integer` allows, make the result depend on the
      order of equally probable pairs. */
  lemma NegativeDepthMakesOrderMatter()
    ensures WeightedMedian([DepthAndPosterior(-5, 0.5), DepthAndPosterior(1, 0.5), DepthAndPosterior(4, 0.7)]) == 0.7
    ensures WeightedMedian([DepthAndPosterior(1, 0.5), DepthAndPosterior(-5, 0.5), DepthAndPosterior(4, 0.7)]) == 0.5
  {
    var x, y, z := DepthAndPosterior(-5, 0.5), DepthAndPosterior(1, 0.5), DepthAndPosterior(4, 0.7);
    assert WeightedMedian([x, y, z]) == 0.7 by {
      var s := [x, y, z];
      SortThreeTie(x, y, z);
      TotalDepthThree(x, y, z);
      assert s[..3] == s;
      forall j | 0 <= j < 2
        ensures !ReachesHalf(s, 0, j)
      {
        assert j == 0 || j == 1;
      }
      assert FirstReach(s, 0, 2);
      ScanFromFirstReach(s, 0, 0, 2);
    }
    assert WeightedMedian([y, x, z]) == 0.5 by {
      var t := [y, x, z];
      SortThreeTie(y, x, z);
      TotalDepthThree(y, x, z);
      assert FirstReach(t, 0, 0);
      ScanFromFirstReach(t, 0, 0, 0);
    }
  }

  /** Sorts the caller's array in place by posterior (stably) and returns the posterior at
      the first position where twice the running alt depth reaches the total alt depth,
      or 0 if there is none. The requirement rules out 32-bit overflow of the sums. */
  method WeightedMedianPosteriorProbability(a: array<DepthAndPosterior>) returns (r: real)
    requires 2 * Magnitude(a[..]) < 0x8000_0000
    modifies a
    ensures a[..] == SortByPosterior(old(a[..]))
    ensures forall k :: FirstReach(a[..], TotalDepth(old(a[..])), k) ==> r == a[k].posterior
    ensures (forall k :: 0 <= k < a.Length ==> !ReachesHalf(a[..], TotalDepth(old(a[..])), k)) ==> r == 0.0
    ensures r == WeightedMedian(old(a[..]))
  {
    ghost var input := a[..];
    var totalAltDepth := TotalDepth(a[..]) as int32;
    ghost var total := TotalDepth(input);
    SortByPosteriorInPlace(a);
    ghost var sorted := a[..];
    SumsPermutation(sorted, input);
    var cumulativeAltCount: int32 := 0;
    var i := 0;
    while i < a.Length
      invariant 0 <= i <= a.Length
      invariant a[..] == sorted
      invariant cumulativeAltCount as int == TotalDepth(sorted[..i])
      invariant forall j :: 0 <= j < i ==> !ReachesHalf(sorted, total, j)
      invariant ScanFrom(sorted, total, i) == WeightedMedian(input)
    {
      assert sorted[..i + 1][..i] == sorted[..i];
      MagnitudePrefix(sorted, i + 1);
      assert Abs(TotalDepth(sorted[..i + 1])) <= Magnitude(sorted[..i + 1]);
      cumulativeAltCount := cumulativeAltCount + a[i].depth;
      if cumulativeAltCount * 2 >= totalAltDepth {
        assert FirstReach(sorted, total, i);
        return a[i].posterior;
      }
      i := i + 1;
    }
    return 0.0;
  }
}
