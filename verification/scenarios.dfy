/**
  Regression fixtures: the shuffle run against a scripted provider, with the
  expected orderings derived by hand from the loop.
 */
module Scenarios {
  import opened Swaps
  import opened Oracle
  import opened FisherYates
  import opened SpanGenericExtension

  datatype Letter = A | B | C | D

  /**
    `[A, B, C, D]` with draws 1 (bound 4), 1 (bound 3), 0 (bound 2):
    i = 3 swaps 3 and 1 giving `[A, D, C, B]`, i = 2 swaps 2 and 1 giving
    `[A, C, D, B]`, i = 1 swaps 1 and 0 giving `[C, A, D, B]`.
   */
  method FourLetters() returns (shuffled: seq<Letter>, requests: seq<nat>)
    ensures requests == [4, 3, 2]
    ensures shuffled == [C, A, D, B]
  {
    var picks;
    var span := [A, B, C, D];
    var rng := Scripted([1, 1, 0]);
    shuffled, requests, picks := SecureShuffle(span, rng);
    DescendingBounds(requests);
    ScriptedDraws();
    HandDerivedOrder();
  }

  /** Three requests for bounds `4 - k` are the bounds 4, 3, 2. */
  lemma DescendingBounds(requests: seq<nat>)
    requires |requests| == DrawCount(4)
    requires forall k :: 0 <= k < |requests| ==> requests[k] == 4 - k
    ensures requests == [4, 3, 2]
  {
  }

  /** The scripted provider hands the loop exactly the scripted values, since each fits its bound. */
  lemma ScriptedDraws()
    ensures Draws(Scripted([1, 1, 0]), 4) == [1, 1, 0]
  {
  }

  /** The descending fold of the draws 1, 1, 0 over `[A, B, C, D]`, one swap at a time. */
  lemma HandDerivedOrder()
    ensures SwapDown([A, B, C, D], 3, [1, 1, 0]) == [C, A, D, B]
  {
  }

  /** An empty span is left as it is and costs no draw. */
  method EmptySpan() returns (shuffled: seq<Letter>, requests: seq<nat>)
    ensures shuffled == [] && requests == []
  {
    var picks;
    shuffled, requests, picks := SecureShuffle([], Scripted([]));
  }

  /** A one-element span is left as it is and costs no draw. */
  method SingleElement() returns (shuffled: seq<Letter>, requests: seq<nat>)
    ensures shuffled == [B] && requests == []
  {
    var picks;
    shuffled, requests, picks := SecureShuffle([B], Scripted([3]));
  }
}
