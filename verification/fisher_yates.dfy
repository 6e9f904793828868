/**
  The pure specification of the backward Fisher–Yates shuffle as a fold of
  swaps over a sequence of draws.

  For a span of length `n` the loop runs `i = n-1, n-2, ..., 1`; the `k`-th draw
  (counted from 0) is made at loop index `i = n-1-k` and asks for the exclusive
  bound `i + 1 = n - k`.
 */
module FisherYates {
  import opened Swaps
  import opened Oracle

  /** Number of draws a span of length `n` costs; for `n >= 1` it is also the first loop index `n - 1`. */
  function DrawCount(n: nat): nat
  {
    if n <= 1 then 0 else n - 1
  }

  /** Exclusive bound requested by the `k`-th draw on a span of length `n`. */
  function BoundAt(n: nat, k: nat): nat
    requires k < n
  {
    n - k
  }

  /** `ds` is a run of draws the loop can have made so far, each inside the bound it asked for. */
  predicate Fits(n: nat, ds: seq<int>)
  {
    && |ds| <= DrawCount(n)
    && forall k :: 0 <= k < |ds| ==> 0 <= ds[k] < BoundAt(n, k)
  }

  lemma FitsPrefix(n: nat, ds: seq<int>, m: nat)
    requires Fits(n, ds) && m <= |ds|
    ensures Fits(n, ds[..m])
  {
  }

  /**
    The span after the loop has consumed the draws `ds`: the last draw
    `ds[k]` swaps loop index `|s|-1-k` with `ds[k]`.  This is the shape of
    the loop invariant; `SwapDown` below is the descending reference form.
   */
  function ApplyDraws<T>(s: seq<T>, ds: seq<int>): (r: seq<T>)
    requires Fits(|s|, ds)
    ensures |r| == |s|
    decreases |ds|
  {
    if ds == [] then s
    else
      var k := |ds| - 1;
      FitsPrefix(|s|, ds, k);
      Swap(ApplyDraws(s, ds[..k]), |s| - 1 - k, ds[k])
  }

  /** `ds` holds one draw for each loop index `i, i-1, ..., 1`, the draw for index `m` lying in `[0, m]`. */
  predicate FitsDown(i: nat, ds: seq<int>)
  {
    && |ds| == i
    && forall k :: 0 <= k < |ds| ==> 0 <= ds[k] <= i - k
  }

  /** The draws still to come after `k` of them fit the descending fold from index `DrawCount(n) - k`. */
  lemma FitsSuffix(n: nat, ds: seq<int>, k: nat)
    requires Fits(n, ds) && |ds| == DrawCount(n) && k <= |ds|
    ensures FitsDown(DrawCount(n) - k, ds[k..])
  {
  }

  /**
    The textbook statement: apply `swap(i, ds[0])`, then `swap(i-1, ds[1])`,
    and so on, for `i` from the given index down to 1.
   */
  function SwapDown<T>(s: seq<T>, i: nat, ds: seq<int>): (r: seq<T>)
    requires i == 0 || i < |s|
    requires FitsDown(i, ds)
    ensures |r| == |s|
    decreases i
  {
    if i == 0 then s
    else SwapDown(Swap(s, i, ds[0]), i - 1, ds[1..])
  }

  /** The draws an oracle hands to the loop on a span of length `n`, in the order they are made. */
  function Draws(rng: Rng, n: nat): (ds: seq<int>)
    requires Honest(rng)
    ensures |ds| == DrawCount(n)
    ensures Fits(n, ds)
  {
    var ds := seq(DrawCount(n), k requires 0 <= k < DrawCount(n) => rng(k, BoundAt(n, k)));
    assert forall k :: 0 <= k < |ds| ==> ds[k] == rng(k, BoundAt(n, k)) && 0 < BoundAt(n, k);
    ds
  }

  /** The prefix fold only moves elements. */
  lemma {:induction false} ApplyDrawsPermutes<T>(s: seq<T>, ds: seq<int>)
    requires Fits(|s|, ds)
    ensures multiset(ApplyDraws(s, ds)) == multiset(s)
    decreases |ds|
  {
    if ds != [] {
      var k := |ds| - 1;
      FitsPrefix(|s|, ds, k);
      ApplyDrawsPermutes(s, ds[..k]);
      SwapPermutes(ApplyDraws(s, ds[..k]), |s| - 1 - k, ds[k]);
    }
  }

  /** The descending fold only moves elements. */
  lemma {:induction false} SwapDownPermutes<T>(s: seq<T>, i: nat, ds: seq<int>)
    requires i == 0 || i < |s|
    requires FitsDown(i, ds)
    ensures multiset(SwapDown(s, i, ds)) == multiset(s)
    decreases i
  {
    if i > 0 {
      FitsDownTail(i, ds);
      SwapPermutes(s, i, ds[0]);
      SwapDownPermutes(Swap(s, i, ds[0]), i - 1, ds[1..]);
    }
  }

  /** Dropping the first draw of a descending run leaves a run for the next index down. */
  lemma FitsDownTail(i: nat, ds: seq<int>)
    requires FitsDown(i, ds) && 0 < i
    ensures FitsDown(i - 1, ds[1..])
  {
  }

  /** With every draw made, the prefix fold and the descending fold agree. */
  lemma {:induction false} ApplyDrawsIsSwapDown<T>(s: seq<T>, ds: seq<int>)
    requires Fits(|s|, ds) && |ds| == DrawCount(|s|)
    ensures FitsDown(DrawCount(|s|), ds)
    ensures ApplyDraws(s, ds) == SwapDown(s, DrawCount(|s|), ds)
  {
    assert ds[..0] == [] && ds[0..] == ds;
    ApplyDrawsFrom(s, ds, 0);
  }

  /** The `k`-th draw extends the prefix fold by one swap at loop index `|s|-1-k`. */
  lemma {:induction false} ApplyDrawsStep<T>(s: seq<T>, ds: seq<int>, k: nat)
    requires Fits(|s|, ds) && k < |ds|
    ensures Fits(|s|, ds[..k]) && Fits(|s|, ds[..k + 1])
    ensures ApplyDraws(s, ds[..k + 1]) == Swap(ApplyDraws(s, ds[..k]), |s| - 1 - k, ds[k])
  {
    FitsPrefix(|s|, ds, k);
    FitsPrefix(|s|, ds, k + 1);
    var t := ds[..k + 1];
    assert |t| - 1 == k && t[k] == ds[k];
    assert t[..k] == ds[..k];
  }

  /** One more draw, inside the bound the next loop index asks for, is one more swap of the prefix fold. */
  lemma {:induction false} ApplyDrawsSnoc<T>(s: seq<T>, ds: seq<int>, j: int)
    requires Fits(|s|, ds) && |ds| < DrawCount(|s|)
    requires 0 <= j < BoundAt(|s|, |ds|)
    ensures Fits(|s|, ds + [j])
    ensures ApplyDraws(s, ds + [j]) == Swap(ApplyDraws(s, ds), |s| - 1 - |ds|, j)
  {
    var t := ds + [j];
    assert t[..|ds|] == ds;
  }

  /** After `k` draws, the remaining descending fold finishes what the prefix fold started. */
  lemma {:induction false} ApplyDrawsFrom<T>(s: seq<T>, ds: seq<int>, k: nat)
    requires Fits(|s|, ds) && |ds| == DrawCount(|s|) && k <= |ds|
    ensures Fits(|s|, ds[..k]) && FitsDown(DrawCount(|s|) - k, ds[k..])
    ensures SwapDown(ApplyDraws(s, ds[..k]), DrawCount(|s|) - k, ds[k..]) == ApplyDraws(s, ds)
    decreases |ds| - k
  {
    FitsPrefix(|s|, ds, k);
    FitsSuffix(|s|, ds, k);
    if k == |ds| {
      assert ds[..k] == ds;
    } else {
      FitsPrefix(|s|, ds, k + 1);
      FitsSuffix(|s|, ds, k + 1);
      var i := DrawCount(|s|) - k;
      var prev := ApplyDraws(s, ds[..k]);
      ApplyDrawsStep(s, ds, k);
      assert ds[k..][0] == ds[k] && ds[k..][1..] == ds[k + 1..];
      assert SwapDown(prev, i, ds[k..]) == SwapDown(ApplyDraws(s, ds[..k + 1]), i - 1, ds[k + 1..]);
      ApplyDrawsFrom(s, ds, k + 1);
    }
  }

  /**
    The finalised suffix: once the draw for loop index `i = |s|-k` has been
    made (after `k` draws), positions `i .. |s|-1` are never written again.
   */
  lemma {:induction false} SuffixFinal<T>(s: seq<T>, ds: seq<int>, k: nat, p: nat)
    requires Fits(|s|, ds) && k <= |ds|
    requires |s| - k <= p < |s|
    ensures Fits(|s|, ds[..k])
    ensures ApplyDraws(s, ds)[p] == ApplyDraws(s, ds[..k])[p]
    decreases |ds|
  {
    FitsPrefix(|s|, ds, k);
    if k == |ds| {
      assert ds[..k] == ds;
    } else {
      var m := |ds| - 1;
      FitsPrefix(|s|, ds, m);
      assert ds[..m][..k] == ds[..k];
      SuffixFinal(s, ds[..m], k, p);
    }
  }

  /** Each step writes only loop index `i = |s|-1-k` and the drawn position, and the drawn position is at most `i`. */
  lemma {:induction false} StepFrame<T>(s: seq<T>, ds: seq<int>, p: nat)
    requires Fits(|s|, ds) && ds != [] && p < |s|
    ensures Fits(|s|, ds[..|ds| - 1])
    ensures ds[|ds| - 1] <= |s| - |ds|
    ensures p != |s| - |ds| && p != ds[|ds| - 1] ==>
              ApplyDraws(s, ds)[p] == ApplyDraws(s, ds[..|ds| - 1])[p]
  {
  }
}
