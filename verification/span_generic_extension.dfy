/**
  `SpanGenericExtension.SecureShuffle<T>(Span<T>, RandomNumberGenerator)`: the
  descending Fisher–Yates loop over a mutable fixed-length span.

  The span is an `array<T>` shuffled in place.  Each method also returns the
  log of the bounds it requested from the oracle and the values it received,
  so that the draw count and the bound passed to each draw are stated facts
  about the call rather than comments.
 */
module SpanGenericExtension {
  import opened Swaps
  import opened Oracle
  import opened FisherYates

  /**
    `requests` and `picks` are the log of the first draws on a span of length
    `n`: the `k`-th draw asked for `BoundAt(n, k)` and received what the
    oracle answers to that request.
   */
  ghost predicate Logged(n: nat, rng: Rng, requests: seq<nat>, picks: seq<int>)
  {
    && |requests| == |picks| <= DrawCount(n)
    && forall k :: 0 <= k < |requests| ==> requests[k] == BoundAt(n, k) && picks[k] == rng(k, requests[k])
  }

  /** Logging the next draw keeps the log faithful. */
  lemma LoggedSnoc(n: nat, rng: Rng, requests: seq<nat>, picks: seq<int>)
    requires Logged(n, rng, requests, picks) && |requests| < DrawCount(n)
    ensures Logged(n, rng, requests + [BoundAt(n, |requests|)], picks + [rng(|picks|, BoundAt(n, |requests|))])
  {
  }

  /** A faithful log of an honest provider is a prefix of the draws the whole loop receives. */
  lemma LoggedPrefix(n: nat, rng: Rng, requests: seq<nat>, picks: seq<int>)
    requires Honest(rng) && Logged(n, rng, requests, picks)
    ensures picks == Draws(rng, n)[..|picks|]
  {
  }

  /**
    Once the draws `picks` are made, the positions from loop index `n - |picks|`
    on already hold what they hold when the loop ends.
   */
  lemma SuffixAlreadyFinal<T>(original: seq<T>, rng: Rng, requests: seq<nat>, picks: seq<int>)
    requires Honest(rng) && Logged(|original|, rng, requests, picks) && Fits(|original|, picks)
    ensures forall p :: |original| - |picks| <= p < |original| ==>
              ApplyDraws(original, picks)[p] == ApplyDraws(original, Draws(rng, |original|))[p]
  {
    var full := Draws(rng, |original|);
    LoggedPrefix(|original|, rng, requests, picks);
    forall p | |original| - |picks| <= p < |original|
      ensures ApplyDraws(original, picks)[p] == ApplyDraws(original, full)[p]
    {
      SuffixFinal(original, full, |picks|, p);
    }
  }

  /**
    One iteration of the loop, on the fold: drawing `j` at loop index
    `i = n-1-k` keeps the log faithful, adds one swap of `i` and `j` to the
    fold, and leaves positions `i .. n-1` holding their end-of-loop values.
   */
  lemma LoopStep<T>(original: seq<T>, rng: Rng, requests: seq<nat>, picks: seq<int>, j: int)
    requires Honest(rng) && Logged(|original|, rng, requests, picks) && Fits(|original|, picks)
    requires |picks| < DrawCount(|original|) && j == rng(|picks|, BoundAt(|original|, |picks|))
    ensures Logged(|original|, rng, requests + [BoundAt(|original|, |picks|)], picks + [j])
    ensures Fits(|original|, picks + [j])
    ensures ApplyDraws(original, picks + [j]) == Swap(ApplyDraws(original, picks), |original| - 1 - |picks|, j)
    ensures forall p :: |original| - 1 - |picks| <= p < |original| ==>
              ApplyDraws(original, picks + [j])[p] == ApplyDraws(original, Draws(rng, |original|))[p]
  {
    ApplyDrawsSnoc(original, picks, j);
    LoggedSnoc(|original|, rng, requests, picks);
    SuffixAlreadyFinal(original, rng, requests + [BoundAt(|original|, |picks|)], picks + [j]);
  }

  /**
    The loop as written: `for (int i = span.Length - 1; i > 0; i--)`, drawing
    `j = rng.GetInt32(i + 1)` and swapping `span[i]` with `span[j]`.
   */
  method ShuffleInPlace<T>(span: array<T>, rng: Rng) returns (requests: seq<nat>, picks: seq<int>)
    requires Honest(rng)
    modifies span
    ensures |requests| == DrawCount(span.Length) && |picks| == |requests|
    ensures forall k :: 0 <= k < |requests| ==> requests[k] == span.Length - k
    ensures forall k :: 0 <= k < |picks| ==> picks[k] == rng(k, requests[k])
    ensures picks == Draws(rng, span.Length)
    ensures span[..] == ApplyDraws(old(span[..]), picks)
    ensures multiset(span[..]) == multiset(old(span[..]))
  {
    ghost var original := span[..];
    ghost var final := ApplyDraws(original, Draws(rng, span.Length));
    requests, picks := [], [];
    var i: int := span.Length - 1;
    while i > 0
      invariant -1 <= i < span.Length
      invariant |requests| == span.Length - 1 - i
      invariant Logged(span.Length, rng, requests, picks)
      invariant Fits(span.Length, picks)
      invariant span[..] == ApplyDraws(original, picks)
      invariant forall p :: i < p < span.Length ==> span[p] == final[p]
      decreases i
    {
      var j := rng(|picks|, i + 1);
      LoopStep(original, rng, requests, picks, j);
      ghost var before := span[..];
      requests, picks := requests + [i + 1], picks + [j];
      span[i], span[j] := span[j], span[i];
      assert span[..] == Swap(before, i, j);
      i := i - 1;
    }
    ApplyDrawsPermutes(original, picks);
  }

  /**
    The caller's by-value view of `ShuffleInPlace`, which is the source
    method itself: the span's contents before and after, with the oracle's
    log.  The span is copied into a buffer that `ShuffleInPlace` shuffles in
    place, so every fact stated here is a fact about that in-place loop.
   */
  method SecureShuffle<T>(span: seq<T>, rng: Rng) returns (shuffled: seq<T>, requests: seq<nat>, picks: seq<int>)
    requires Honest(rng)
    ensures |shuffled| == |span|
    ensures multiset(shuffled) == multiset(span)
    ensures |requests| == DrawCount(|span|) && |picks| == |requests|
    ensures forall k :: 0 <= k < |requests| ==> requests[k] == |span| - k
    ensures forall k :: 0 <= k < |picks| ==> picks[k] == rng(k, requests[k]) && 0 <= picks[k] < requests[k]
    ensures |span| <= 1 ==> requests == [] && shuffled == span
    ensures shuffled == SwapDown(span, DrawCount(|span|), Draws(rng, |span|))
  {
    var buffer := new T[|span|](k requires 0 <= k < |span| => span[k]);
    assert buffer[..] == span;
    requests, picks := ShuffleInPlace(buffer, rng);
    shuffled := buffer[..];
    ApplyDrawsIsSwapDown(span, picks);
  }
}
