# Hypergeometric tail inversion, in Dafny

This project models the core of *hypergeometric_tail_inversion*, a library of generalization bounds
for binary classifiers. Every bound rests on one quantity, the pseudo-inverse of the hypergeometric
left tail:

    HypInv(k, m, delta, M) = min { K : Hyp(k, m, K, M) <= delta }

Here a sample of m items is drawn without replacement from a population of M items, K of which are
errors. Hyp(k, m, K, M) is the probability that the sample holds at most k errors.

The model covers:

- **Binomial** (`binomial.dfy`): exact binomial coefficients with scipy's convention. C(n, r) is 0
  outside 0 <= r <= n, so C(-1, 0) = 0.
- **Tolerance** (`tolerance.dfy`): `close_to` and `close_to_or_less_than`. The two `utils/utils.py`
  files define them identically.
- **Hypergeometric** (`hypergeometric.dfy`): the pmf and the left tail as exact rationals, and
  Berkopec's terms (unnormalised and normalised) and their sum.
  - Berkopec's identity is proved by telescoping: the population-indexed sum equals the
    sample-indexed left tail.
  - The tail is proved non-increasing in K, and strictly decreasing on the range the searches walk.
- **TailInverse** (`tail_inverse.dfy`): the specification `HypInv` and the four searches of
  `hypergeometric_left_tail_inverse` and `naive_hypergeometric_left_tail_inverse`. These are the
  Berkopec search from above (subtracting terms from C(M, m)), the search from below (adding terms
  from the top, with numpy's relative-tolerance test in its guard) and the two naive searches. Each
  is a `while` loop proved against `HypInv`.
- **SourceBounds** (`source_bounds.dfy`): `hypinv_upperbound` of `source/generalization_bounds.py`.
  It includes its scan `_optimize_mprime` over the ghost-sample size mprime. The scan fills an
  array in place, keeps the running best bound, collects the tied positions and returns their median.
- **HypergeoBounds** (`hypergeo_bounds.dfy`): `hypinv_upperbound`, `hypinv_lowerbound`,
  `optimize_mprime` and `optimize_catoni` of `hypergeo/generalization_bounds.py`.
  - `optimize_mprime` minimises or maximises, with optional early stopping. Its result is the
    best bound of the prefix it evaluated, and the model states exactly where it stops.
  - `optimize_catoni` scans the multiples of m and stops at the first bound worse than the best.
- **Options** (`options.dfy`): an `Option` type for the arguments that default to `None`.

The searches and scans are methods with loops, proved against specification functions. The bound
functions, the growth function of the hypothesis class and the other bounds being optimised are
parameters.

## Model

| member | source | states |
|---|---|---|
| Binomial.Binom | source/hypergeometric_distribution.py:69-72 | C(n, r) is positive exactly when 0 <= r <= n, and 0 elsewhere (scipy's exact `comb`) |
| Binomial.Pascal | source/hypergeometric_distribution.py:87-90 | Pascal's rule C(n, r) = C(n-1, r-1) + C(n-1, r) for every r once n >= 1 |
| Binomial.Symmetry | source/hypergeometric_distribution.py:87-90 | C(n, r) = C(n, n-r) for n >= 0 |
| Tolerance.CloseTo | source/utils/utils.py:3-4 | `close_to(a, b)` holds exactly when a lies within atol + rtol abs(b) of b, on either side; hypergeo/utils/utils.py:4-5 is the same test |
| Tolerance.CloseToOrLessThan | hypergeo/utils/utils.py:8-9 | every a <= b passes; an a above b passes exactly when a - b <= atol + rtol abs(b); source/utils/utils.py:7-8 is the same test |
| Tolerance.CloseToReflexive | hypergeo/utils/utils.py:4-5 | with non-negative atol and rtol, `close_to(a, a)` holds |
| Tolerance.CloseToExactIsEquality | source/utils/utils.py:3-4 | with atol = rtol = 0, `close_to(a, b)` holds exactly when a == b |
| Tolerance.CloseToIsNotSymmetric | source/utils/utils.py:3-4 | the tolerance scales with abs(b) only: 0 is close to 1 at rtol 1, but 1 is not close to 0 |
| Tolerance.CloseToOrLessThanIsThreshold | hypergeo/utils/utils.py:8-9 | `close_to_or_less_than(a, b)` holds exactly when a <= b + atol + rtol abs(b); when it fails, a is above that threshold |
| Tolerance.LessThanIsCloseToOrLessThan | source/utils/utils.py:7-8 | a <= b implies `close_to_or_less_than(a, b)`, whatever the tolerances |
| Tolerance.CloseToOrLessThanDownward | source/utils/utils.py:7-8 | with non-negative tolerances the test is downward closed in a |
| Hypergeometric.HypergeometricPmf | source/hypergeometric_distribution.py:23-34 | the pmf C(K, j) C(M-K, m-j) / C(M, m) is non-negative |
| Hypergeometric.HypergeometricLeftTail | source/hypergeometric_distribution.py:37-52 | the left tail is non-negative |
| Hypergeometric.LeftTailIsSumOfPmf | source/hypergeometric_distribution.py:51-52 | the left tail equals the sum of the pmf over j = 0 .. k |
| Hypergeometric.PmfSumsToOne | source/hypergeometric_distribution.py:23-34 | over j = 0 .. m the pmf sums to 1, for every 0 <= K <= M (Vandermonde) |
| Hypergeometric.BerkopecSingleTerm | source/hypergeometric_distribution.py:55-72 | the normalised term is non-negative, and 0 outside k <= K <= M-m+k |
| Hypergeometric.BerkopecUnnormalizedSingleTerm | source/hypergeometric_distribution.py:75-90 | the unnormalised term is 0 outside k <= K <= M-m+k |
| Hypergeometric.BerkopecSum | source/hypergeometric_distribution.py:93-107 | the sum over J = K .. M-m+k is 0 once K is past M-m+k, and otherwise at least its term at K |
| Hypergeometric.HypergeometricBerkopecLeftTail | source/hypergeometric_distribution.py:93-107 | Berkopec's left tail is non-negative and 0 once K is past M-m+k |
| Hypergeometric.BerkopecTermScaling | source/hypergeometric_distribution.py:68-72 | the normalised Berkopec term is the unnormalised term divided by C(M, m), including the case M == K, m == k where it is 1 |
| Hypergeometric.BerkopecTermCountsPlacements | source/hypergeometric_distribution.py:87-90 | below M, the unnormalised term C(K, k) C(M-K-1, M-K-m+k) equals C(K, k) C(M-K-1, m-k-1) |
| Hypergeometric.TailStep | source/hypergeometric_distribution.py:107 | making item K an error lowers the tail count by exactly the Berkopec term at K |
| Hypergeometric.TailVanishesBeyondTop | source/hypergeometric_distribution.py:107 | beyond K = M - m + k the tail count is 0 |
| Hypergeometric.TailIsTotal | source/hypergeometric_distribution.py:37-52 | when K <= k or m <= k every sample qualifies: the tail count is C(M, m) |
| Hypergeometric.TailAtZero | source/hypergeometric_distribution.py:37-52 | with no error in the population the tail count is C(M, m) |
| Hypergeometric.BerkopecIdentity | source/hypergeometric_distribution.py:93-107 | Berkopec's sum over J = K .. M-m+k equals the sample-indexed tail count, for 0 <= K <= M-m+k+1 |
| Hypergeometric.BerkopecLeftTailAgrees | source/hypergeometric_distribution.py:93-107 | `hypergeometric_berkopec_left_tail` equals `hypergeometric_left_tail` |
| Hypergeometric.BerkopecSumFromK | source/hypergeometric_distribution.py:131-133 | the Berkopec sum from K = k is C(M, m), the start value of the search from above |
| Hypergeometric.TailNonIncreasing | source/hypergeometric_distribution.py:37-52 | the tail count does not increase with K |
| Hypergeometric.TailStrictlyDecreasing | source/hypergeometric_distribution.py:37-52 | for k < m the tail count strictly decreases on k .. M-m+k+1 |
| Hypergeometric.LeftTailNonIncreasing | source/hypergeometric_distribution.py:37-52 | the left tail does not increase with K on 0 .. M |
| Hypergeometric.LeftTailStrictlyDecreasing | source/hypergeometric_distribution.py:37-52 | for k < m the left tail strictly decreases on k .. M-m+k+1 |
| Hypergeometric.LeftTailRange | source/hypergeometric_distribution.py:37-52 | the left tail is at most 1; it is 1 for K <= k and 0 beyond M-m+k |
| TailInverse.SearchFrom | source/hypergeometric_distribution.py:112-114 | from a K below which no count qualifies, the first qualifying count is the pseudo-inverse |
| TailInverse.HypInv | source/hypergeometric_distribution.py:112-114 | HypInv is the least K in k .. M-m+k whose tail is at most delta, or M-m+k+1 when none is |
| TailInverse.PseudoInverseUnique | source/hypergeometric_distribution.py:112-114 | the pseudo-inverse is unique |
| TailInverse.HypInvCharacterization | source/hypergeometric_distribution.py:112-114 | for K in k .. M-m+k, HypInv == K exactly when Hyp(K) <= delta and Hyp(J) > delta for k <= J < K |
| TailInverse.InverseLaw | tests/test_hypergeometric_distribution.py:21-23 | for k < m and k <= K <= M-m+k, HypInv(k, m, Hyp(k, m, K, M), M) == K |
| TailInverse.TailAtPseudoInverse | tests/test_hypergeometric_distribution.py:27-28 | for k < m and delta >= 0, Hyp(k, m, HypInv(delta), M) <= delta |
| TailInverse.HypInvDegenerateCases | source/hypergeometric_distribution.py:131-137 | delta >= 1 gives k; k == m with delta < 1 gives M + 1 |
| TailInverse.HypInvAntitone | source/hypergeometric_distribution.py:112-114 | a larger delta never gives a larger pseudo-inverse |
| TailInverse.HypInvStable | source/hypergeometric_distribution.py:139-145 | if no tail value on k .. M-m+k falls in (delta1, delta2], both deltas have the same pseudo-inverse |
| TailInverse.InverseFromAbove | source/hypergeometric_distribution.py:131-137 | the search from above, on the running unnormalised sum, returns the pseudo-inverse at delta |
| TailInverse.InverseFromBelow | source/hypergeometric_distribution.py:139-145 | the search from below with relative tolerance rtol returns the pseudo-inverse at delta + rtol abs(delta) |
| TailInverse.NaiveInverseFromAbove | source/hypergeometric_distribution.py:207-211 | the naive search from above returns the pseudo-inverse |
| TailInverse.NaiveInverseFromBelow | source/hypergeometric_distribution.py:213-220 | the naive search from below (no tolerance) returns the pseudo-inverse |
| TailInverse.HypergeometricLeftTailInverse | source/hypergeometric_distribution.py:110-145 | 'above' returns HypInv(delta); 'below' returns HypInv(delta + 10e-16 abs(delta)) |
| TailInverse.NaiveHypergeometricLeftTailInverse | source/hypergeometric_distribution.py:188-220 | both directions return HypInv(delta) |
| TailInverse.SearchesAgree | tests/test_hypergeometric_distribution.py:43-46 | at zero tolerance the four searches return the same count, HypInv(delta) |
| TailInverse.DirectionsAgree | tests/test_hypergeometric_distribution.py:43-46 | with the tolerance, 'below' <= 'above', and they are equal unless a tail value lies in (delta, delta + 10e-16 abs(delta)] |
| SourceBounds.HypinvUpperboundAt | source/generalization_bounds.py:20-28 | with explicit mprime, the bound lies in [1/mprime, 1], and is 1 when k == m |
| SourceBounds.UpperboundCoversUnrejected | source/generalization_bounds.py:28 | any population count K whose tail exceeds delta/4/growth(m+mprime) has ghost error rate (K-k)/mprime at most the bound |
| SourceBounds.UpperboundAntitoneInDelta | source/generalization_bounds.py:28 | a larger delta never gives a larger bound |
| SourceBounds.UpperboundMonotoneInGrowth | source/generalization_bounds.py:28 | a larger growth function never gives a smaller bound |
| SourceBounds.UpperboundValues | source/generalization_bounds.py:32-36 | the scanned bounds, one per mprime = 1 .. n, each in (0, 1] |
| SourceBounds.UpperboundValuesAt | source/generalization_bounds.py:34-36 | slot mprime-1 of the scanned bounds holds the bound at mprime |
| SourceBounds.RunningMin | source/generalization_bounds.py:33-38 | the best bound after the first loop is at most 1 and every value, and is 1 or one of the values |
| SourceBounds.NearBest | source/generalization_bounds.py:40-43 | the tied positions are 1-based, strictly increasing, and are exactly the mprime whose bound is within rtol 10e-12 of the best |
| SourceBounds.BestIsTied | source/generalization_bounds.py:40-45 | at least one position ties with the best, so the median index exists |
| SourceBounds.MedianOfBest | source/generalization_bounds.py:45 | the median of the ties lies in [1, n] and its bound is within tolerance of the best |
| SourceBounds.MedianIsNearBest | source/generalization_bounds.py:40-45 | the bound at the chosen mprime is within tolerance of the minimum of 1 and all bounds |
| SourceBounds.TiedPositions | source/generalization_bounds.py:40-43 | the second loop collects exactly the tied positions |
| SourceBounds.RunningMinStep | source/generalization_bounds.py:37-38 | scanning one more bound keeps it exactly when it is at most the best so far |
| SourceBounds.EvaluateUpperbound | source/generalization_bounds.py:35 | the bound evaluated at mprime is the mprime-th of the scanned bounds |
| SourceBounds.MedianValueIsNearBest | source/generalization_bounds.py:40-45 | the value at the median of the ties is within the tie tolerance of the best value |
| SourceBounds.ScanBounds | source/generalization_bounds.py:32-38 | the first loop leaves the array equal to the scanned bounds and the best bound equal to their running minimum |
| SourceBounds.OptimizeMprime | source/generalization_bounds.py:31-45 | `_optimize_mprime` returns the median of the ties, in [1, max_mprime], whose bound is within tolerance of the best |
| SourceBounds.HypinvUpperbound | source/generalization_bounds.py:6-28 | 1 when k == m; the bound at the given mprime; else the bound at the median of ties over 1 .. max_mprime (15 m by default) |
| HypergeoBounds.ScanBestIsBest | hypergeo/generalization_bounds.py:155-163 | the best after evaluating min_mprime .. t is (min_mprime, initial best) when no bound is as good as it, or else an evaluated mprime with its bound; no evaluated bound is better, and every later one is strictly worse |
| HypergeoBounds.PatientThroughEach | hypergeo/generalization_bounds.py:164-167 | when the patience held through t, the steps since the last best stayed below `early_stopping` at every mprime up to t |
| HypergeoBounds.ScanStopBounds | hypergeo/generalization_bounds.py:157-167 | without early stopping the scan reaches max_mprime; with it, it ends at most max(`early_stopping`, 1) steps after the last best |
| HypergeoBounds.ScanStopIsUnique | hypergeo/generalization_bounds.py:157-167 | there is exactly one mprime where the scan may stop |
| HypergeoBounds.ScanMprime | hypergeo/generalization_bounds.py:152-167 | the result is the best after the last evaluated mprime, with the last of equally good bounds winning. The scan stops at the first evaluation where the steps since the last best, the improving step included, reach `early_stopping`: after `early_stopping` - 1 evaluations that do not improve. Otherwise it stops at max_mprime |
| HypergeoBounds.OptimizeMprimeAsWritten | hypergeo/generalization_bounds.py:141-172 | as written (best starts at 1): the scan's result and stopping point, started from 1. So the result is no worse than 1 and than every bound, and the last of equally good bounds wins. In 'max' mode with all bounds below 1 it is (min_mprime, 1) |
| HypergeoBounds.OptimizeMprime | hypergeo/generalization_bounds.py:141-172 | corrected: the scan's result and stopping point, started from the first bound. On a non-empty range the result is an evaluated mprime whose bound is the best evaluated one, and the last to reach it |
| HypergeoBounds.HypinvUpperbound | hypergeo/generalization_bounds.py:33-46 | 1 when k == m; the bound at the given mprime; else, through `optimize_mprime` as written, a bound of the range 1 .. max_mprime that is at most all of them |
| HypergeoBounds.HypinvLowerboundAt | hypergeo/generalization_bounds.py:72-90 | 0 when k == 0; otherwise at most (mprime-1)/mprime, so always below 1 |
| HypergeoBounds.LowerboundNonNegative | tests/test_generalization_bounds.py:22-23 | if the lower inverse never answers below k-1, the lower bound is at least 0 |
| HypergeoBounds.HypinvLowerbound | hypergeo/generalization_bounds.py:72-90 | 0 when k == 0; the bound at the given mprime; else a bound of the range 1 .. max_mprime that is at least all of them |
| HypergeoBounds.HypinvLowerboundAsWritten | hypergeo/generalization_bounds.py:75-90 | as written, the optimised lower bound is the bound at mprime = 1, which is never positive |
| HypergeoBounds.CatoniMprimeIncreasing | hypergeo/generalization_bounds.py:243-252 | the scanned multiples of m strictly increase |
| HypergeoBounds.CatoniBestStepIsBest | hypergeo/generalization_bounds.py:246-251 | the step of the best bound: its bound is at most 1 and every scanned bound, and strictly below all earlier ones |
| HypergeoBounds.ContinuedIffGuard | hypergeo/generalization_bounds.py:248 | the loop test `best_bound >= current_bound` after a step holds exactly when that step's bound is no worse than the best before it |
| HypergeoBounds.CatoniStopIsUnique | hypergeo/generalization_bounds.py:248-252 | there is exactly one step where the search may stop |
| HypergeoBounds.CatoniBestBelowAll | hypergeo/generalization_bounds.py:250-251 | the best bound of the first n steps is at most the bound at each of their multiples of m |
| HypergeoBounds.CatoniLoopExit | hypergeo/generalization_bounds.py:248-252 | when the loop ends at step n it stops where the search must: at the first worsening, or at the last multiple within max_mprime |
| HypergeoBounds.OptimizeCatoniAsWritten | hypergeo/generalization_bounds.py:242-255 | the search stops at the first worsening, or at the last multiple within max_mprime. The best bound is <= 1 and <= every evaluated bound. The returned mprime is the last evaluated multiple, in [m, max_mprime]. If the search stops before max_mprime, that mprime's bound is strictly worse than the best |
| HypergeoBounds.OptimizeCatoni | hypergeo/generalization_bounds.py:242-255 | corrected: the same stop and the same best bound, and the returned mprime is where the best was first reached |

## Left out

- Floating point. Every value is an exact real. The model therefore leaves out:
  - the rounding the normalised Berkopec terms suffer;
  - the float product `delta * comb(M, m)` in the search from above;
  - scipy's `hypergeom.pmf` and `hypergeom.cdf`, which the pmf and the left tail call;
  - the global that turns warnings into errors.
- `log_hypergeometric_left_tail_inverse`, `binomln` and every `log_delta=True` branch: logarithms and
  `gammaln` of floats.
- Both `binomial_distribution.py` files, `vapnik_*` and `lugosi_chaining`,
  `hypinv_reldev_upperbound`, `sample_compression_bound` and the `catoni_4_6` formula: square roots,
  `erfc` and bisection on floats. Catoni's bound enters `optimize_catoni` as a parameter.
- `sauer_shelah` and `log_sauer_shelah`: the growth function is a parameter, assumed positive
  (`SourceBounds.PositiveGrowth`).
- `hypergeo/hypergeometric_distribution.py` is not part of this model.
  - Its `hypergeometric_tail_inverse` is modelled by `TailInverse.HypInv`, the value of the source
    tree's search from above.
  - Its `hypergeometric_tail_lower_inverse` is a function parameter with no contract, so the
    non-negativity checked by the tests is stated separately, in `LowerboundNonNegative`.
- TailInverse.HypergeometricLeftTailInverse: a `start` other than 'above' or 'below' makes the
  source return `None`; the model's `Start` type has only the two directions.
- HypergeoBounds.OptimizeMprime: `return_bound` is not modelled; both the mprime and the bound are
  always returned. The defaults `max_mprime=10_000` and `min_mprime=1` are explicit arguments.
- HypergeoBounds.ScanMprime: `early_stopping` is a number in the source; the model uses an
  integer limit or none.
  - The `bounds` buffer is written as in the source and never read. It is a sequence updated
    by index rather than an array, because the writes to a fresh array made the loop's proof
    too large.
  - min_mprime <= max_mprime + 1 is required, since `np.ones` of a negative length raises.
- HypergeoBounds.OptimizeCatoni: m >= 1 is required. With m = 0 and max_mprime >= 0 the source
  raises ZeroDivisionError at its first evaluation, in `catoni_4_6` (`r1 = k/m`,
  hypergeo/generalization_bounds.py:275). With a negative max_mprime it returns (1, 0) without
  evaluating. The model takes the bound as a parameter, so it cannot raise that error, and with
  m = 0 its scan would not advance. The same holds for `OptimizeCatoniAsWritten`.
- SourceBounds.OptimizeMprime: max_mprime >= 1 is required. With 0 the list of ties is empty, and
  taking its median raises `IndexError`.
- HypergeoBounds.HypinvLowerbound: the bound at the chosen mprime is compared with the others, but
  nothing is said about its sign, since the lower inverse has no contract.

## Findings

| source | as written | input that shows it | evidently intended | confidence | as-written member | corrected member |
|---|---|---|---|---|---|---|
| hypergeo/generalization_bounds.py:154 | `best_bound` starts at 1 in both modes. In 'max' mode only a bound of at least 1 can replace it, and every lower bound is below 1, so `hypinv_lowerbound` without `mprime` always evaluates at mprime = 1, where min(0, ...)/1 <= 0 | `hypinv_lowerbound(1, 10, g, 0.05)` for any positive g: the search returns mprime = 1 for every bound, so the result is <= 0 | start from the first evaluated bound (an infinitely bad bound), so 'max' returns the mprime of the largest bound | high, not executed | HypergeoBounds.OptimizeMprimeAsWritten | HypergeoBounds.OptimizeMprime |
| hypergeo/generalization_bounds.py:254 | `best_mprime = mprime - m` is the last multiple evaluated. When the scan stops because a bound got worse, that is the worse one, not where `best_bound` was reached | m = 1, max_mprime = 10, bounds 0.5, 0.4, 0.45 at mprime 1, 2, 3: returns (0.4, 3) | return the mprime at which `best_bound` was reached: (0.4, 2) | high, not executed | HypergeoBounds.OptimizeCatoniAsWritten | HypergeoBounds.OptimizeCatoni |

`HypergeoBounds.HypinvLowerboundAsWritten` states the first finding's consequence for the lower
bound. `HypergeoBounds.HypinvLowerbound` uses the corrected search. `HypergeoBounds.HypinvUpperbound`
uses the search as written, like the source: in 'min' mode every upper bound is at most 1, so
starting from 1 changes nothing there.
