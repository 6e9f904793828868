/**
  How draw sequences and orderings correspond.  Every reordering of the span
  is produced by some run of in-bound draws, and on a span of distinct
  elements different runs produce different orderings.  So, on distinct
  elements, the runs of draws correspond one-to-one to the permutations of
  the span, and each run is what some honest provider hands the loop.  The probability
  claim that builds on this (uniform draws give a uniform permutation) is not
  stated here.
 */
module Permutations {
  import opened Swaps
  import opened Oracle
  import opened FisherYates

  /** No element occurs twice in `s`. */
  predicate Distinct<T(==)>(s: seq<T>)
  {
    forall a, b :: 0 <= a < b < |s| ==> s[a] != s[b]
  }

  /** The descending fold from index `i` never writes a position above `i`. */
  lemma {:induction false} SwapDownFrame<T>(s: seq<T>, i: nat, ds: seq<int>, p: nat)
    requires i == 0 || i < |s|
    requires FitsDown(i, ds)
    requires i < p < |s|
    ensures SwapDown(s, i, ds)[p] == s[p]
    decreases i
  {
    if i > 0 {
      FitsDownTail(i, ds);
      var s' := Swap(s, i, ds[0]);
      assert SwapDown(s, i, ds) == SwapDown(s', i - 1, ds[1..]);
      assert s'[p] == s[p];
      SwapDownFrame(s', i - 1, ds[1..], p);
    }
  }

  /** The element that ends at index `i > 0` is the one the first draw picked. */
  lemma {:induction false} SwapDownTop<T>(s: seq<T>, i: nat, ds: seq<int>)
    requires 0 < i < |s|
    requires FitsDown(i, ds)
    ensures SwapDown(s, i, ds)[i] == s[ds[0]]
  {
    FitsDownTail(i, ds);
    SwapDownFrame(Swap(s, i, ds[0]), i - 1, ds[1..], i);
  }

  lemma DistinctIndex<T>(s: seq<T>, a: nat, b: nat)
    requires Distinct(s) && a < |s| && b < |s| && s[a] == s[b]
    ensures a == b
  {
  }

  lemma SwapKeepsDistinct<T>(s: seq<T>, i: nat, j: nat)
    requires Distinct(s) && i < |s| && j < |s|
    ensures Distinct(Swap(s, i, j))
  {
  }

  /**
    On a span of distinct elements the outcome determines the draws: two runs
    of in-bound draws that produce the same ordering are the same run.
   */
  lemma {:induction false} DrawsDetermineOrder<T>(s: seq<T>, i: nat, ds1: seq<int>, ds2: seq<int>)
    requires Distinct(s)
    requires i == 0 || i < |s|
    requires FitsDown(i, ds1) && FitsDown(i, ds2)
    requires SwapDown(s, i, ds1) == SwapDown(s, i, ds2)
    ensures ds1 == ds2
    decreases i
  {
    if i > 0 {
      var j := ds1[0];
      SwapDownTop(s, i, ds1);
      SwapDownTop(s, i, ds2);
      DistinctIndex(s, j, ds2[0]);
      FitsDownTail(i, ds1);
      FitsDownTail(i, ds2);
      var s' := Swap(s, i, j);
      SwapKeepsDistinct(s, i, j);
      assert SwapDown(s, i, ds1) == SwapDown(s', i - 1, ds1[1..]);
      assert SwapDown(s, i, ds2) == SwapDown(s', i - 1, ds2[1..]);
      DrawsDetermineOrder(s', i - 1, ds1[1..], ds2[1..]);
      assert ds1 == [j] + ds1[1..] && ds2 == [j] + ds2[1..];
    }
  }

  /** Swapping two positions of the prefix `s[..m]` is a swap of that prefix. */
  lemma SwapPrefix<T>(s: seq<T>, m: nat, i: nat, j: nat)
    requires i < m <= |s| && j < m
    ensures Swap(s, i, j)[..m] == Swap(s[..m], i, j)
  {
  }

  /** Positions `0..i` agree as multisets and position `i` agrees, so positions `0..i-1` agree as multisets. */
  lemma {:induction false} PrefixStep<T>(s: seq<T>, t: seq<T>, i: nat)
    requires |s| == |t| && i < |s|
    requires multiset(s[..i + 1]) == multiset(t[..i + 1]) && s[i] == t[i]
    ensures multiset(s[..i]) == multiset(t[..i])
  {
    assert s[..i + 1] == s[..i] + [s[i]];
    assert t[..i + 1] == t[..i] + [t[i]];
    assert multiset(s[..i]) == multiset(s[..i + 1]) - multiset{s[i]};
    assert multiset(t[..i]) == multiset(t[..i + 1]) - multiset{t[i]};
  }

  /** After the swap at index `i` places `t[i]`, the span agrees with `t` from `i` on. */
  lemma SuffixStep<T>(s: seq<T>, s': seq<T>, t: seq<T>, i: nat, j: nat)
    requires |s| == |t| && j <= i < |s|
    requires s' == Swap(s, i, j) && s'[i] == t[i]
    requires s[i + 1..] == t[i + 1..]
    ensures s'[i..] == t[i..]
  {
  }

  /** When only position 0 is left to reorder, the span already equals `t`. */
  lemma {:induction false} ReachBase<T>(s: seq<T>, t: seq<T>)
    requires |s| == |t| && 0 < |s|
    requires multiset(s[..1]) == multiset(t[..1])
    requires s[1..] == t[1..]
    ensures s == t
  {
    assert s[..1] == [s[0]] && t[..1] == [t[0]];
    assert t[0] in multiset(s[..1]);
    assert s == [s[0]] + s[1..] && t == [t[0]] + t[1..];
  }

  /** Some draw `j <= i` brings `t[i]` to position `i`, leaving positions `0..i-1` to reorder. */
  lemma {:induction false} ReachStep<T>(s: seq<T>, t: seq<T>, i: nat) returns (j: nat, s': seq<T>)
    requires |s| == |t| && 0 < i < |s|
    requires multiset(s[..i + 1]) == multiset(t[..i + 1])
    requires s[i + 1..] == t[i + 1..]
    ensures j <= i && s' == Swap(s, i, j)
    ensures multiset(s'[..i]) == multiset(t[..i])
    ensures s'[i..] == t[i..]
  {
    assert t[..i + 1][i] == t[i];
    assert t[i] in multiset(s[..i + 1]);
    j :| 0 <= j <= i && s[..i + 1][j] == t[i];
    s' := Swap(s, i, j);
    SwapPrefix(s, i + 1, i, j);
    SwapPermutes(s[..i + 1], i, j);
    PrefixStep(s', t, i);
    SuffixStep(s, s', t, i, j);
  }

  /**
    Every reordering `t` of the positions `0..i` of `s` (positions above `i`
    agreeing) is produced by some run of draws for indices `i` down to 1.
   */
  lemma {:induction false} ReachFrom<T>(s: seq<T>, t: seq<T>, i: nat) returns (ds: seq<int>)
    requires |s| == |t| && i < |s|
    requires multiset(s[..i + 1]) == multiset(t[..i + 1])
    requires s[i + 1..] == t[i + 1..]
    ensures FitsDown(i, ds)
    ensures SwapDown(s, i, ds) == t
    decreases i
  {
    if i == 0 {
      ReachBase(s, t);
      ds := [];
    } else {
      var j, s' := ReachStep(s, t, i);
      var rest := ReachFrom(s', t, i - 1);
      ds := [j] + rest;
      assert ds[1..] == rest;
      assert forall k :: 1 <= k < |ds| ==> ds[k] == rest[k - 1];
    }
  }

  /** Every permutation of a span is the outcome of some run of in-bound draws. */
  lemma {:induction false} EveryPermutationReachable<T>(s: seq<T>, t: seq<T>) returns (ds: seq<int>)
    requires multiset(s) == multiset(t)
    ensures Fits(|s|, ds) && |ds| == DrawCount(|s|)
    ensures SwapDown(s, DrawCount(|s|), ds) == t
  {
    assert |s| == |multiset(s)| == |multiset(t)| == |t|;
    if |s| == 0 {
      ds := [];
    } else {
      var i := |s| - 1;
      assert s[..i + 1] == s && t[..i + 1] == t;
      ds := ReachFrom(s, t, i);
      assert forall k :: 0 <= k < |ds| ==> 0 <= ds[k] < BoundAt(|s|, k);
    }
  }

  /** Every run of in-bound draws is what some honest provider hands the loop. */
  lemma ProviderFor(n: nat, ds: seq<int>) returns (rng: Rng)
    requires Fits(n, ds) && |ds| == DrawCount(n)
    ensures Honest(rng)
    ensures Draws(rng, n) == ds
  {
    var script := seq(|ds|, k requires 0 <= k < |ds| => ds[k] as nat);
    rng := Scripted(script);
    var got := Draws(rng, n);
    assert forall k :: 0 <= k < |ds| ==> got[k] == rng(k, BoundAt(n, k)) == ds[k];
  }

  /** Every permutation of a span is a possible outcome of the shuffle under some honest provider. */
  lemma {:induction false} EveryPermutationIsAnOutcome<T>(s: seq<T>, t: seq<T>) returns (rng: Rng)
    requires multiset(s) == multiset(t)
    ensures Honest(rng)
    ensures SwapDown(s, DrawCount(|s|), Draws(rng, |s|)) == t
  {
    var ds := EveryPermutationReachable(s, t);
    rng := ProviderFor(|s|, ds);
  }
}
