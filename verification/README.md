# SecureShuffle in Dafny

A model of `SpanGenericExtension.SecureShuffle<T>(Span<T>, RandomNumberGenerator)`
from `Soenneker.Extensions.Spans.Generics`. This is an in-place, backward Fisher–Yates shuffle
of a mutable fixed-length span. For `i` from `span.Length - 1` down to 1 it asks
the random source for `j = rng.GetInt32(i + 1)` and swaps `span[i]` with
`span[j]`.

The random source is an oracle. `Oracle.Rng` is a total function from the index
of a draw and the requested exclusive bound to the value returned. The draw index
stands for the generator's internal state. `Oracle.Honest` is the provider's
contract: every positive bound is honoured. With the oracle fixed, the shuffle is
a deterministic function of its draws. It is proved equal to a pure fold of swaps.

Files and modules:

- `swaps.dfy` (`Swaps`): the tuple swap on sequences and the laws the proofs use.
- `oracle.dfy` (`Oracle`): the random source as an oracle, plus a scripted stub provider.
- `fisher_yates.dfy` (`FisherYates`): the pure specification. `ApplyDraws` is the
  prefix fold, the shape of the loop invariant. `SwapDown` is the textbook
  descending fold: swap `(i, d_i)` for `i` from `n-1` down to 1. It also holds the
  draw count, the per-draw bound, permutation and finalised-suffix lemmas.
- `span_generic_extension.dfy` (`SpanGenericExtension`): the loop itself.
  `ShuffleInPlace` shuffles an `array<T>` in place. `SecureShuffle` is the same
  call seen by value. Both return the log of requested bounds and received draws.
- `permutations.dfy` (`Permutations`): how runs of in-bound draws relate to
  orderings. Every permutation is reachable under some honest provider, and on
  distinct elements the ordering determines the draws, so on distinct elements
  draw runs and orderings correspond one-to-one.
- `scenarios.dfy` (`Scenarios`): hand-derived regression fixtures.

The doc comment on the `rng` parameter (src/SpanGenericExtension.cs:20) says
it cannot be null. The method body (lines 21-28) has no argument check: nothing
checks `rng` before the first draw (line 25), and spans with fewer than two
elements never use it. The model therefore takes a valid provider as a
precondition (`Honest`) and has no argument-validation error path.

Integer width: `i` starts at `span.Length - 1` (-1 for an empty span) and inside
the loop lies in `1 .. span.Length - 1`, so the bound `i + 1` is at most
`span.Length`. So no 32-bit overflow can occur, and unbounded `int` is
faithful. `SecureShuffle` states that every requested bound is `|span| - k`, which
never exceeds the length.

## Model

| member | source | states |
|---|---|---|
| `Swaps.Swap` | src/SpanGenericExtension.cs:26 | the tuple swap puts the old `span[j]` at `i` and the old `span[i]` at `j`; every other position and the length are unchanged |
| `Swaps.SwapPermutes` | src/SpanGenericExtension.cs:26 | a swap only moves elements: the multiset of the span is unchanged |
| `Swaps.SwapSelf` | src/SpanGenericExtension.cs:26 | when the draw `j` equals `i`, the step leaves the span unchanged |
| `Oracle.Scripted` | src/SpanGenericExtension.cs:25 | a scripted stub provider keeps the `GetInt32` contract (result in `[0, bound)`) and returns each scripted value that fits the requested bound |
| `FisherYates.Draws` | src/SpanGenericExtension.cs:23-25 | an honest provider hands the loop exactly `n-1` draws (none when `n <= 1`), the `k`-th lying in `[0, n-k)` |
| `FisherYates.ApplyDraws` | src/SpanGenericExtension.cs:23-26 | the span after the loop has consumed the draws `ds`: the `k`-th draw swaps loop index `n-1-k`; the length is kept |
| `FisherYates.SwapDown` | src/SpanGenericExtension.cs:23-27 | the reference fold: `swap(i, d_i)` for `i` from the given index down to 1; the length is kept |
| `FisherYates.ApplyDrawsPermutes` | src/SpanGenericExtension.cs:23-27 | after any prefix of the loop, the span holds the same multiset of elements as before |
| `FisherYates.SwapDownPermutes` | src/SpanGenericExtension.cs:23-27 | the descending fold of swaps is a permutation of its input |
| `FisherYates.ApplyDrawsSnoc` | src/SpanGenericExtension.cs:23-26 | each loop iteration extends the fold by exactly one swap, at loop index `n-1-k` with the `k`-th draw |
| `FisherYates.ApplyDrawsStep` | src/SpanGenericExtension.cs:23-26 | the state after `k+1` draws is the state after `k` draws with one more swap at index `n-1-k` |
| `FisherYates.ApplyDrawsIsSwapDown` | src/SpanGenericExtension.cs:23-27 | with every draw made, the loop's result equals "apply swap(i, d_i) for i from n-1 down to 1" |
| `FisherYates.ApplyDrawsFrom` | src/SpanGenericExtension.cs:23-27 | after `k` draws, the remaining descending swaps carry the intermediate state to the loop's final result |
| `FisherYates.SuffixFinal` | src/SpanGenericExtension.cs:23-26 | once the draw for index `i` has been made, positions `i..n-1` are never written again |
| `FisherYates.StepFrame` | src/SpanGenericExtension.cs:25-26 | each step's draw is at most its loop index, and the step writes no position other than `i` and `j` |
| `SpanGenericExtension.LoopStep` | src/SpanGenericExtension.cs:23-26 | one iteration keeps the draw log faithful, adds one swap of `i` and `j` to the fold, and leaves positions `i..n-1` holding their end-of-loop values |
| `SpanGenericExtension.SuffixAlreadyFinal` | src/SpanGenericExtension.cs:23-26 | after `k` draws of an honest provider, positions `n-k..n-1` already hold their values at the end of the loop; the loop of `ShuffleInPlace` carries this as an invariant |
| `SpanGenericExtension.ShuffleInPlace` | src/SpanGenericExtension.cs:21-28 | the in-place loop makes exactly `DrawCount(n)` draws and requests bound `n-k` at draw `k`. Each draw is the oracle's answer to that request. The array ends as the fold of those draws and keeps its multiset |
| `SpanGenericExtension.SecureShuffle` | src/SpanGenericExtension.cs:21-28 | the caller sees the same length and multiset. It sees `n-1` draws with bounds `n, n-1, ..., 2`, each in range, and none for `n <= 1` with the span unchanged. The result is the descending swap fold of the draws |
| `Permutations.SwapDownFrame` | src/SpanGenericExtension.cs:23-26 | the descending fold from index `i` never touches a position above `i` |
| `Permutations.SwapDownTop` | src/SpanGenericExtension.cs:25-26 | the element finalised at index `i` is the one the draw for `i` picked |
| `Permutations.DrawsDetermineOrder` | src/SpanGenericExtension.cs:23-27 | on distinct elements, two runs of in-bound draws that give the same ordering are the same run |
| `Permutations.ReachFrom` | src/SpanGenericExtension.cs:23-27 | any reordering of positions `0..i` is produced by some in-bound draws for indices `i` down to 1 |
| `Permutations.EveryPermutationReachable` | src/SpanGenericExtension.cs:23-27 | every permutation of the span is the result of some run of `n-1` in-bound draws |
| `Permutations.ProviderFor` | src/SpanGenericExtension.cs:25 | every run of in-bound draws is exactly what some honest provider hands the loop |
| `Permutations.EveryPermutationIsAnOutcome` | src/SpanGenericExtension.cs:21-28 | every permutation of the span is the result of the shuffle under some honest provider |
| `Scenarios.FourLetters` | src/SpanGenericExtension.cs:23-27 | `[A, B, C, D]` with scripted draws 1, 1, 0 requests bounds 4, 3, 2 and ends as `[C, A, D, B]` |
| `Scenarios.EmptySpan` | src/SpanGenericExtension.cs:23 | an empty span is untouched and costs no draw |
| `Scenarios.SingleElement` | src/SpanGenericExtension.cs:23 | a one-element span is untouched and costs no draw |

## Left out

- Uniformity of the resulting permutation: the claim that each of the `n!` orderings is equally likely is a probability statement about the entropy source. The model proves only the structural half: every ordering is reachable, and on distinct elements draw runs and orderings correspond one-to-one.
- The implementation of `rng.GetInt32`: it comes from an external package and is modelled only through its contract, `0 <= result < bound`.
- The cryptographic strength of `RandomNumberGenerator`: this is an entropy concern of a foreign library.
- Null or invalid `rng`: the code has no argument check. A valid provider is a precondition, and no invalid-argument error is modelled.
- Provider failure mid-shuffle and the partially shuffled span it leaves: exceptions raised by the random source are outside the pure algorithm.
- Thread safety and the ref-struct, stack-only nature of `Span<T>`: these are runtime and concurrency concerns. The span is an `array<T>`, or a `seq<T>` by value.
