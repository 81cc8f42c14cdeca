/** The (alt depth, posterior probability) pairs that Mutect2 filters hand to the
    weighted-median reducer, and the depth sums the reducer computes over them. */
module Depths {

  /** Java's 32-bit `int`, the type of the alt depths and of the reducer's running sums. */
  newtype int32 = x: int | -0x8000_0000 <= x < 0x8000_0000

  /** One `ImmutablePair<Integer, Double>`: the alt depth of a sample and the posterior
      probability of artifact for it. Probabilities are only compared, so a `real` stands
      for the Java `double`. */
  datatype DepthAndPosterior = DepthAndPosterior(depth: int32, posterior: real)

  type Pairs = seq<DepthAndPosterior>

  predicate NonNegativeDepths(s: Pairs) {
    forall x :: x in s ==> x.depth >= 0
  }

  function Abs(n: int): nat {
    if n < 0 then -n else n
  }

  /** The sum of the depths, computed with mathematical integers. */
  function TotalDepth(s: Pairs): (r: int)
    ensures NonNegativeDepths(s) ==> r >= 0
  {
    if s == [] then 0
    else
      assert forall x :: x in s[..|s| - 1] ==> x in s;
      TotalDepth(s[..|s| - 1]) + s[|s| - 1].depth as int
  }

  /** The sum of the absolute depths: a bound on every partial sum, in any order. */
  function Magnitude(s: Pairs): (r: nat)
    ensures Abs(TotalDepth(s)) <= r
  {
    if s == [] then 0 else Magnitude(s[..|s| - 1]) + Abs(s[|s| - 1].depth as int)
  }

  /** The pairs whose posterior is at most `p`, in their original order. */
  function AtMost(s: Pairs, p: real): (r: Pairs)
    ensures forall x :: x in r ==> x in s && x.posterior <= p
  {
    if s == [] then []
    else
      var init := AtMost(s[..|s| - 1], p);
      assert forall x :: x in init ==> x in s;
      init + (if s[|s| - 1].posterior <= p then [s[|s| - 1]] else [])
  }

  /** The total depth of the pairs whose posterior is at most `p`. */
  function DepthAtMost(s: Pairs, p: real): (r: int)
    ensures NonNegativeDepths(s) ==> r >= 0
  {
    TotalDepth(AtMost(s, p))
  }

  lemma {:induction false} SumsConcat(a: Pairs, b: Pairs)
    ensures TotalDepth(a + b) == TotalDepth(a) + TotalDepth(b)
    ensures Magnitude(a + b) == Magnitude(a) + Magnitude(b)
    decreases |b|
  {
    if b == [] {
      assert a + b == a;
    } else {
      assert (a + b)[..|a + b| - 1] == a + b[..|b| - 1];
      SumsConcat(a, b[..|b| - 1]);
    }
  }

  lemma SumsSingleton(x: DepthAndPosterior)
    ensures TotalDepth([x]) == x.depth as int
    ensures Magnitude([x]) == Abs(x.depth as int)
  {
    assert [x][..0] == [];
  }

  /** Taking one pair out of a sequence takes exactly its depth off both sums. */
  lemma SumsRemove(front: Pairs, x: DepthAndPosterior, back: Pairs)
    ensures TotalDepth(front + [x] + back) == TotalDepth(front + back) + x.depth as int
    ensures Magnitude(front + [x] + back) == Magnitude(front + back) + Abs(x.depth as int)
  {
    assert TotalDepth(front + [x]) == TotalDepth(front) + x.depth as int
        && Magnitude(front + [x]) == Magnitude(front) + Abs(x.depth as int) by {
      SumsConcat(front, [x]);
      SumsSingleton(x);
    }
    SumsConcat(front + [x], back);
    SumsConcat(front, back);
  }

  /** The depth sums do not depend on the order of the pairs. */
  lemma {:induction false} SumsPermutation(s: Pairs, t: Pairs)
    requires multiset(s) == multiset(t)
    ensures TotalDepth(s) == TotalDepth(t)
    ensures Magnitude(s) == Magnitude(t)
    decreases |s|
  {
    if s == [] {
      assert |t| == |multiset(t)| == 0;
    } else {
      var x := s[|s| - 1];
      var s' := s[..|s| - 1];
      assert s == s' + [x];
      assert x in multiset(t);
      var i :| 0 <= i < |t| && t[i] == x;
      var t' := t[..i] + t[i + 1..];
      assert t == t[..i] + [x] + t[i + 1..];
      assert multiset(t') == multiset(t) - multiset{x};
      assert multiset(s') == multiset(s) - multiset{x};
      SumsRemove(t[..i], x, t[i + 1..]);
      SumsPermutation(s', t');
    }
  }

  /** A prefix of a sequence never has a larger magnitude. */
  lemma {:induction false} MagnitudePrefix(s: Pairs, k: nat)
    requires k <= |s|
    ensures Magnitude(s[..k]) <= Magnitude(s)
  {
    assert s == s[..k] + s[k..];
    SumsConcat(s[..k], s[k..]);
  }

  /** With non-negative depths, a longer prefix has at least the depth of a shorter one. */
  lemma {:induction false} TotalDepthPrefixMonotone(s: Pairs, j: nat, k: nat)
    requires NonNegativeDepths(s)
    requires j <= k <= |s|
    ensures TotalDepth(s[..j]) <= TotalDepth(s[..k])
  {
    assert s[..k] == s[..j] + s[j..k];
    assert forall x :: x in s[j..k] ==> x in s;
    SumsConcat(s[..j], s[j..k]);
  }

  /** How often each pair occurs among those at most `p`. */
  lemma {:induction false} AtMostCount(s: Pairs, p: real, x: DepthAndPosterior)
    ensures multiset(AtMost(s, p))[x] == if x.posterior <= p then multiset(s)[x] else 0
    decreases |s|
  {
    if s != [] {
      AtMostCount(s[..|s| - 1], p, x);
      assert s == s[..|s| - 1] + [s[|s| - 1]];
    }
  }

  /** The depth at or below a posterior does not depend on the order of the pairs. */
  lemma DepthAtMostPermutation(s: Pairs, t: Pairs, p: real)
    requires multiset(s) == multiset(t)
    ensures DepthAtMost(s, p) == DepthAtMost(t, p)
  {
    forall x
      ensures multiset(AtMost(s, p))[x] == multiset(AtMost(t, p))[x]
    {
      AtMostCount(s, p, x);
      AtMostCount(t, p, x);
    }
    assert multiset(AtMost(s, p)) == multiset(AtMost(t, p));
    SumsPermutation(AtMost(s, p), AtMost(t, p));
  }

  /** When the first `m` pairs have posterior at most `p` and the others exceed it, the
      pairs at most `p` are exactly that prefix. */
  lemma {:induction false} AtMostPrefix(t: Pairs, p: real, m: nat)
    requires m <= |t|
    requires forall i :: 0 <= i < m ==> t[i].posterior <= p
    requires forall i :: m <= i < |t| ==> t[i].posterior > p
    ensures AtMost(t, p) == t[..m]
    decreases |t|
  {
    if m == |t| {
      AtMostAll(t, p);
      assert t[..m] == t;
    } else {
      var init := t[..|t| - 1];
      AtMostLast(t, p);
      assert forall i :: 0 <= i < |init| ==> init[i] == t[i];
      AtMostPrefix(init, p, m);
      assert init[..m] == t[..m];
    }
  }

  /** When every posterior is at most `p`, `AtMost` keeps every pair. */
  lemma {:induction false} AtMostAll(t: Pairs, p: real)
    requires forall i :: 0 <= i < |t| ==> t[i].posterior <= p
    ensures AtMost(t, p) == t
    decreases |t|
  {
    if t != [] {
      var init, last := t[..|t| - 1], t[|t| - 1];
      AtMostAll(init, p);
      assert AtMost(t, p) == init + [last];
      SplitLast(t);
    }
  }

  /** A non-empty sequence is its front followed by its last pair. */
  lemma SplitLast(t: Pairs)
    requires t != []
    ensures t == t[..|t| - 1] + [t[|t| - 1]]
  {
  }

  /** `AtMost` takes the last pair exactly when its posterior is at most `p`. */
  lemma AtMostLast(t: Pairs, p: real)
    requires t != []
    ensures AtMost(t, p) == AtMost(t[..|t| - 1], p) + (if t[|t| - 1].posterior <= p then [t[|t| - 1]] else [])
  {
  }
}
