/**
  The caller-supplied random source, `rng.GetInt32(bound)`.  Its entropy is out
  of reach of a proof, so it is an oracle: a total function from the index of
  the draw (which stands for the generator's internal state) and the exclusive
  bound requested to the value it hands back.
 */
module Oracle {

  /** `rng(k, b)` is the value returned by the `k`-th draw (counted from 0) when it asks for `[0, b)`. */
  type Rng = (nat, nat) -> int

  /** The provider's contract: every draw with a positive bound lands in `[0, bound)`. */
  ghost predicate Honest(rng: Rng)
  {
    forall k: nat, b: nat :: 0 < b ==> 0 <= rng(k, b) < b
  }

  /**
    A stub provider for regression fixtures: the `k`-th draw returns `script[k]`
    when that value fits the requested bound, and 0 otherwise.
   */
  function Scripted(script: seq<nat>): (rng: Rng)
    ensures Honest(rng)
    ensures forall k, b: nat :: 0 <= k < |script| && script[k] < b ==> rng(k, b) == script[k]
  {
    (k: nat, b: nat) => if k < |script| && script[k] < b then script[k] else 0
  }
}
