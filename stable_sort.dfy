/** The in-place, stable sort by posterior probability that the reducer performs on its
    argument list (`List.sort` with `Comparator.comparingDouble`). */
module StableSort {
  import opened Depths

  predicate SortedByPosterior(s: Pairs) {
    forall i, j :: 0 <= i < j < |s| ==> s[i].posterior <= s[j].posterior
  }

  /** The pairs whose posterior is exactly `p`, in their order in `s`. */
  function WithPosterior(s: Pairs, p: real): (r: Pairs)
  {
    if s == [] then []
    else (if s[0].posterior == p then [s[0]] else []) + WithPosterior(s[1..], p)
  }

  lemma WithPosteriorCons(y: DepthAndPosterior, rest: Pairs, p: real)
    ensures WithPosterior([y] + rest, p) == (if y.posterior == p then [y] else []) + WithPosterior(rest, p)
  {
    assert ([y] + rest)[1..] == rest;
  }

  /** The pairs with posterior `p` are pairs of `s` and have posterior `p`. */
  lemma {:induction false} WithPosteriorMembers(s: Pairs, p: real, x: DepthAndPosterior)
    requires x in WithPosterior(s, p)
    ensures x in s && x.posterior == p
    decreases |s|
  {
    if s[0].posterior != p || x != s[0] {
      WithPosteriorMembers(s[1..], p, x);
    }
  }

  /** `s` and `t` hold the same pairs and list the pairs of each posterior in the same
      order: `t` is a stable rearrangement of `s`. */
  ghost predicate SameTies(s: Pairs, t: Pairs) {
    forall p :: WithPosterior(s, p) == WithPosterior(t, p)
  }

  /** Inserts `x` in front of the first pair whose posterior is not smaller, so that `x`
      stays ahead of the pairs that tie with it. */
  function Insert(x: DepthAndPosterior, s: Pairs): (r: Pairs)
    ensures multiset(r) == multiset{x} + multiset(s)
  {
    if s == [] || x.posterior <= s[0].posterior then [x] + s
    else
      assert s == [s[0]] + s[1..];
      [s[0]] + Insert(x, s[1..])
  }

  /** Stable insertion sort by posterior: the reference for `List.sort`. */
  function SortByPosterior(s: Pairs): (r: Pairs)
    ensures multiset(r) == multiset(s)
  {
    if s == [] then []
    else
      assert s == [s[0]] + s[1..];
      Insert(s[0], SortByPosterior(s[1..]))
  }

  lemma {:induction false} WithPosteriorConcat(a: Pairs, b: Pairs, p: real)
    ensures WithPosterior(a + b, p) == WithPosterior(a, p) + WithPosterior(b, p)
    decreases |a|
  {
    if a != [] {
      assert (a + b)[1..] == a[1..] + b;
      WithPosteriorConcat(a[1..], b, p);
    } else {
      assert a + b == b;
    }
  }

  /** Every occurrence of `x` in `s` is among the pairs with posterior `x.posterior`. */
  lemma {:induction false} WithPosteriorCount(s: Pairs, x: DepthAndPosterior)
    ensures multiset(WithPosterior(s, x.posterior))[x] == multiset(s)[x]
    decreases |s|
  {
    if s != [] {
      WithPosteriorCount(s[1..], x);
      assert s == [s[0]] + s[1..];
    }
  }

  /** A stable rearrangement is a permutation. */
  lemma SameTiesPermutation(s: Pairs, t: Pairs)
    requires SameTies(s, t)
    ensures multiset(s) == multiset(t)
  {
    forall x
      ensures multiset(s)[x] == multiset(t)[x]
    {
      WithPosteriorCount(s, x);
      WithPosteriorCount(t, x);
    }
  }

  lemma {:induction false} InsertSorted(x: DepthAndPosterior, s: Pairs)
    requires SortedByPosterior(s)
    ensures SortedByPosterior(Insert(x, s))
    decreases |s|
  {
    if s != [] && x.posterior > s[0].posterior {
      InsertSorted(x, s[1..]);
      var tail := Insert(x, s[1..]);
      forall y | y in tail
        ensures s[0].posterior <= y.posterior
      {
        assert y in multiset(tail);
      }
    }
  }

  lemma {:induction false} InsertKeepsTies(x: DepthAndPosterior, s: Pairs)
    ensures SameTies(Insert(x, s), [x] + s)
    decreases |s|
  {
    if s != [] && x.posterior > s[0].posterior {
      var y, rest := s[0], s[1..];
      var tail := Insert(x, rest);
      assert Insert(x, s) == [y] + tail;
      assert [x] + s == [x] + ([y] + rest);
      InsertKeepsTies(x, rest);
      forall p
        ensures WithPosterior([y] + tail, p) == WithPosterior([x] + ([y] + rest), p)
      {
        WithPosteriorCons(y, tail, p);
        WithPosteriorCons(x, rest, p);
        WithPosteriorCons(x, [y] + rest, p);
        WithPosteriorCons(y, rest, p);
      }
    }
  }

  lemma {:induction false} SortByPosteriorSorted(s: Pairs)
    ensures SortedByPosterior(SortByPosterior(s))
    decreases |s|
  {
    if s != [] {
      SortByPosteriorSorted(s[1..]);
      InsertSorted(s[0], SortByPosterior(s[1..]));
    }
  }

  lemma {:induction false} SortByPosteriorKeepsTies(s: Pairs)
    ensures SameTies(SortByPosterior(s), s)
    decreases |s|
  {
    if s != [] {
      var rest := SortByPosterior(s[1..]);
      SortByPosteriorKeepsTies(s[1..]);
      InsertKeepsTies(s[0], rest);
      forall p
        ensures WithPosterior(SortByPosterior(s), p) == WithPosterior(s, p)
      {
        WithPosteriorConcat([s[0]], rest, p);
        WithPosteriorConcat([s[0]], s[1..], p);
        assert s == [s[0]] + s[1..];
      }
    }
  }

  /** A sequence is determined by being sorted and by the order of its ties: there is
      exactly one stable sort of any input. */
  lemma {:induction false} StableSortUnique(s: Pairs, t: Pairs)
    requires SortedByPosterior(s) && SortedByPosterior(t)
    requires SameTies(s, t)
    ensures s == t
    decreases |s|
  {
    SameTiesPermutation(s, t);
    assert |s| == |multiset(s)| == |multiset(t)| == |t|;
    if s != [] {
      var p, q := s[0].posterior, t[0].posterior;
      assert t[0] in WithPosterior(s, q) by {
        WithPosteriorCons(t[0], t[1..], q);
        assert t == [t[0]] + t[1..];
      }
      WithPosteriorMembers(s, q, t[0]);
      assert p <= q;
      assert s[0] in WithPosterior(t, p) by {
        WithPosteriorCons(s[0], s[1..], p);
        assert s == [s[0]] + s[1..];
      }
      WithPosteriorMembers(t, p, s[0]);
      assert q <= p;
      assert s[0] == t[0] by {
        assert WithPosterior(s, p) == [s[0]] + WithPosterior(s[1..], p);
        assert WithPosterior(t, p) == [t[0]] + WithPosterior(t[1..], p);
        assert WithPosterior(s, p)[0] == WithPosterior(t, p)[0];
      }
      forall r
        ensures WithPosterior(s[1..], r) == WithPosterior(t[1..], r)
      {
        var head := if s[0].posterior == r then [s[0]] else [];
        var ws, wt := WithPosterior(s[1..], r), WithPosterior(t[1..], r);
        assert WithPosterior(s, r) == head + ws;
        assert WithPosterior(t, r) == head + wt;
        assert ws == (head + ws)[|head|..];
        assert wt == (head + wt)[|head|..];
      }
      StableSortUnique(s[1..], t[1..]);
      assert s == [s[0]] + s[1..] && t == [t[0]] + t[1..];
    }
  }

  lemma WithPosteriorSwap(u: DepthAndPosterior, v: DepthAndPosterior, p: real)
    requires u.posterior != v.posterior
    ensures WithPosterior([v, u], p) == WithPosterior([u, v], p)
  {
    assert [v, u][1..] == [u] && [u, v][1..] == [v];
    assert [u][1..] == [] && [v][1..] == [];
  }

  /** Swapping two neighbours with different posteriors keeps the order of every tie. */
  lemma SwapKeepsTies(front: Pairs, u: DepthAndPosterior, v: DepthAndPosterior, back: Pairs)
    requires u.posterior != v.posterior
    ensures SameTies(front + [v, u] + back, front + [u, v] + back)
  {
    forall p
      ensures WithPosterior(front + [v, u] + back, p) == WithPosterior(front + [u, v] + back, p)
    {
      WithPosteriorConcat(front + [v, u], back, p);
      WithPosteriorConcat(front + [u, v], back, p);
      WithPosteriorConcat(front, [v, u], p);
      WithPosteriorConcat(front, [u, v], p);
      WithPosteriorSwap(u, v, p);
    }
  }

  /** Exchanges the neighbours at `j - 1` and `j` when they are out of order, keeping the
      order of every tie. */
  method SwapDown(a: array<DepthAndPosterior>, j: int)
    requires 0 < j < a.Length
    requires a[j - 1].posterior > a[j].posterior
    modifies a
    ensures a[j - 1] == old(a[j]) && a[j] == old(a[j - 1])
    ensures forall k :: 0 <= k < a.Length && k != j - 1 && k != j ==> a[k] == old(a[k])
    ensures SameTies(a[..], old(a[..]))
  {
    ghost var front, u, v, back := a[..j - 1], a[j - 1], a[j], a[j + 1..];
    assert a[..] == front + [u, v] + back;
    a[j - 1], a[j] := a[j], a[j - 1];
    assert a[..] == front + [v, u] + back;
    SwapKeepsTies(front, u, v, back);
  }

  /** Sorts `a` in place by posterior, keeping pairs with equal posteriors in their
      original order, as the stable `List.sort` does. */
  method SortByPosteriorInPlace(a: array<DepthAndPosterior>)
    modifies a
    ensures a[..] == SortByPosterior(old(a[..]))
    ensures multiset(a[..]) == multiset(old(a[..]))
  {
    ghost var input := a[..];
    var i := 0;
    while i < a.Length
      invariant 0 <= i <= a.Length
      invariant SortedByPosterior(a[..i])
      invariant SameTies(a[..], input)
    {
      var j := i;
      while j > 0 && a[j - 1].posterior > a[j].posterior
        invariant 0 <= j <= i
        invariant forall k, l :: 0 <= k < l <= i && k != j && l != j ==> a[k].posterior <= a[l].posterior
        invariant forall l :: j < l <= i ==> a[j].posterior < a[l].posterior
        invariant SameTies(a[..], input)
      {
        SwapDown(a, j);
        j := j - 1;
      }
      i := i + 1;
    }
    assert a[..] == a[..a.Length];
    SortByPosteriorSorted(input);
    SortByPosteriorKeepsTies(input);
    StableSortUnique(a[..], SortByPosterior(input));
  }
}
