/** The pseudo-inverse of the hypergeometric left tail, HypInv(k, m, delta, M) = min{K : Hyp(k, m, K, M) <= delta},
    and the four searches of `source/hypergeometric_distribution.py` that compute it: Berkopec's
    recurrence walked from above and from below, and the naive searches that re-evaluate the tail. */
module TailInverse {
  import opened Binomial
  import opened Tolerance
  import opened Hypergeometric

  /** The direction of a search. */
  datatype Start = Above | Below

  /** The relative tolerance 10e-16 of the closeness test in the search from below. */
  const BelowRtol: real := 0.000000000000001

  /** The threshold the search from below effectively compares against: delta loosened by rtol * |delta|. */
  function WithTolerance(delta: real, rtol: real): real
  {
    delta + rtol * Abs(delta)
  }

  /** K is the least population count from k on whose left tail is at most delta; the searches only
      look at k .. M - m + k and answer M - m + k + 1 when no count there qualifies. */
  predicate IsPseudoInverse(k: nat, m: nat, delta: real, M: nat, K: int)
    requires m <= M
  {
    && k <= K <= Top(k, m, M) + 1
    && (K <= Top(k, m, M) ==> HypergeometricLeftTail(k, m, K, M) <= delta)
    && (forall J :: k <= J < K ==> HypergeometricLeftTail(k, m, J, M) > delta)
  }

  /** The least qualifying count from K on, given that none from k up to K qualifies. */
  function SearchFrom(k: nat, m: nat, delta: real, M: nat, K: int): (r: int)
    requires k <= m <= M && k <= K <= Top(k, m, M) + 1
    requires forall J :: k <= J < K ==> HypergeometricLeftTail(k, m, J, M) > delta
    ensures IsPseudoInverse(k, m, delta, M, r)
    decreases Top(k, m, M) + 1 - K
  {
    if K > Top(k, m, M) || HypergeometricLeftTail(k, m, K, M) <= delta then K
    else SearchFrom(k, m, delta, M, K + 1)
  }

  /** HypInv(k, m, delta, M), the specification every search is proved against. */
  function HypInv(k: nat, m: nat, delta: real, M: nat): (K: int)
    requires k <= m <= M
    ensures IsPseudoInverse(k, m, delta, M, K)
  {
    SearchFrom(k, m, delta, M, k)
  }

  // ---------------------------------------------------------------------------------------------
  // Properties of the pseudo-inverse

  /** There is only one pseudo-inverse. */
  lemma PseudoInverseUnique(k: nat, m: nat, delta: real, M: nat, K1: int, K2: int)
    requires m <= M
    requires IsPseudoInverse(k, m, delta, M, K1) && IsPseudoInverse(k, m, delta, M, K2)
    ensures K1 == K2
  {
  }

  /** HypInv(delta) is K exactly when the tail at K is at most delta and the tail just before K
      (if K is not the first candidate) exceeds delta. */
  lemma HypInvCharacterization(k: nat, m: nat, delta: real, M: nat, K: int)
    requires k <= m <= M && k <= K <= Top(k, m, M)
    ensures HypInv(k, m, delta, M) == K
        <==> HypergeometricLeftTail(k, m, K, M) <= delta
             && (K == k || HypergeometricLeftTail(k, m, K - 1, M) > delta)
  {
    if HypergeometricLeftTail(k, m, K, M) <= delta && (K == k || HypergeometricLeftTail(k, m, K - 1, M) > delta) {
      forall J | k <= J < K
        ensures HypergeometricLeftTail(k, m, J, M) > delta
      {
        LeftTailNonIncreasing(k, m, J, K - 1, M);
      }
      assert IsPseudoInverse(k, m, delta, M, K);
      PseudoInverseUnique(k, m, delta, M, K, HypInv(k, m, delta, M));
    }
  }

  /** The inverse law: for k < m, inverting the tail at any K in k .. M - m + k gives K back.
      It rests on the strict decrease of the tail there. */
  lemma InverseLaw(k: nat, m: nat, K: int, M: nat)
    requires k < m <= M && k <= K <= Top(k, m, M)
    ensures HypInv(k, m, HypergeometricLeftTail(k, m, K, M), M) == K
  {
    if K > k {
      LeftTailStrictlyDecreasing(k, m, K - 1, K, M);
    }
    HypInvCharacterization(k, m, HypergeometricLeftTail(k, m, K, M), M, K);
  }

  /** For k < m and delta >= 0, the tail at the pseudo-inverse is at most delta. */
  lemma TailAtPseudoInverse(k: nat, m: nat, delta: real, M: nat)
    requires k < m <= M && delta >= 0.0
    ensures HypergeometricLeftTail(k, m, HypInv(k, m, delta, M), M) <= delta
  {
    var K := HypInv(k, m, delta, M);
    if K == Top(k, m, M) + 1 {
      LeftTailRange(k, m, K, M);
    }
  }

  /** A threshold of at least 1 is met at once, since the tail at k is 1; when k == m the tail is 1
      everywhere, so any threshold below 1 sends the search past M. */
  lemma HypInvDegenerateCases(k: nat, m: nat, delta: real, M: nat)
    requires k <= m <= M
    ensures delta >= 1.0 ==> HypInv(k, m, delta, M) == k
    ensures k == m && delta < 1.0 ==> HypInv(k, m, delta, M) == M + 1
  {
    LeftTailRange(k, m, k, M);
    if delta >= 1.0 {
      HypInvCharacterization(k, m, delta, M, k);
    }
    if k == m && delta < 1.0 {
      var K := HypInv(k, m, delta, M);
      if K <= M {
        LeftTailRange(k, m, K, M);
        TailIsTotal(k, m, K, M);
        NormaliserPositive(m, M);
        DivideSelf(Binom(M, m) as real);
      }
    }
  }

  /** A larger threshold never gives a larger pseudo-inverse. */
  lemma HypInvAntitone(k: nat, m: nat, delta1: real, delta2: real, M: nat)
    requires k <= m <= M && delta1 <= delta2
    ensures HypInv(k, m, delta2, M) <= HypInv(k, m, delta1, M)
  {
  }

  /** Raising the threshold from delta1 to delta2 changes nothing unless some tail value in the
      searched range lies in (delta1, delta2]. */
  lemma HypInvStable(k: nat, m: nat, delta1: real, delta2: real, M: nat)
    requires k <= m <= M && delta1 <= delta2
    requires forall J :: k <= J <= Top(k, m, M) ==>
               !(delta1 < HypergeometricLeftTail(k, m, J, M) <= delta2)
    ensures HypInv(k, m, delta1, M) == HypInv(k, m, delta2, M)
  {
    var K2 := HypInv(k, m, delta2, M);
    assert IsPseudoInverse(k, m, delta1, M, K2);
    PseudoInverseUnique(k, m, delta1, M, K2, HypInv(k, m, delta1, M));
  }

  // ---------------------------------------------------------------------------------------------
  // The searches

  /** The threshold delta c, divided back by c, is delta. */
  lemma ThresholdRatio(delta: real, c: real, threshold: real)
    requires c > 0.0 && threshold == delta * c
    ensures threshold / c == delta
  {
  }

  /** What the search from above establishes on the integers, read back as tails: once the
      running sums before K exceed the threshold delta C(M, m) and the one at K (if any) does
      not, K is the pseudo-inverse. The threshold is given by its ratio to C(M, m). */
  lemma AboveResult(k: nat, m: nat, delta: real, M: nat, K: int, threshold: real)
    requires k <= m <= M && k <= K <= Top(k, m, M) + 1
    requires Binom(M, m) > 0 && threshold / Binom(M, m) as real == delta
    requires K <= Top(k, m, M) ==> BerkopecSum(k, m, K, M) as real <= threshold
    requires forall J :: k <= J < K ==> BerkopecSum(k, m, J, M) as real > threshold
    ensures IsPseudoInverse(k, m, delta, M, K)
  {
    var c := Binom(M, m) as real;
    forall J | k <= J < K
      ensures HypergeometricLeftTail(k, m, J, M) > delta
    {
      DivideStrictlyMonotone(threshold, BerkopecSum(k, m, J, M) as real, c);
      BerkopecLeftTailAgrees(k, m, J, M);
    }
    if K <= Top(k, m, M) {
      DivideMonotone(BerkopecSum(k, m, K, M) as real, threshold, c);
      BerkopecLeftTailAgrees(k, m, K, M);
    }
  }

  /** The search from above: start from the whole unnormalised sum C(M, m) at K = k and subtract
      Berkopec terms while the running value exceeds delta C(M, m). */
  method InverseFromAbove(k: nat, m: nat, delta: real, M: nat) returns (K: int)
    requires k <= m <= M
    ensures IsPseudoInverse(k, m, delta, M, K)
  {
    K := k;
    var normaliser := Binom(M, m);
    var unnormalizedHypCdf: int := normaliser;
    var threshold := delta * normaliser as real;
    NormaliserPositive(m, M);
    ThresholdRatio(delta, normaliser as real, threshold);
    BerkopecSumFromK(k, m, M);
    while unnormalizedHypCdf as real > threshold && K <= M - m + k
      invariant k <= K <= Top(k, m, M) + 1
      invariant unnormalizedHypCdf == BerkopecSum(k, m, K, M)
      invariant forall J :: k <= J < K ==> BerkopecSum(k, m, J, M) as real > threshold
      decreases Top(k, m, M) + 1 - K
    {
      unnormalizedHypCdf := unnormalizedHypCdf - BerkopecUnnormalizedSingleTerm(k, m, K, M);
      K := K + 1;
    }
    AboveResult(k, m, delta, M, K, threshold);
  }

  /** The search from below: start from the last Berkopec term at K = M - m + k and add terms
      walking K down while the running tail is at most delta, up to the relative tolerance rtol.
      It returns the exact pseudo-inverse for the loosened threshold delta + rtol |delta|. */
  method InverseFromBelow(k: nat, m: nat, delta: real, M: nat, rtol: real) returns (result: int)
    requires k <= m <= M && rtol >= 0.0
    ensures IsPseudoInverse(k, m, WithTolerance(delta, rtol), M, result)
  {
    var c := Binom(M, m) as real;
    NormaliserPositive(m, M);
    var K := M - m + k;
    var hypCdf := BerkopecSingleTerm(k, m, K, M);
    BerkopecTermScaling(k, m, K, M);
    ghost var loosened := WithTolerance(delta, rtol);
    while CloseToOrLessThan(hypCdf, delta, 0.0, rtol) && K >= k
      invariant k - 1 <= K <= Top(k, m, M)
      invariant hypCdf == BerkopecSum(k, m, K, M) as real / c
      invariant forall J :: K < J <= Top(k, m, M) ==> HypergeometricLeftTail(k, m, J, M) <= loosened
      decreases K
    {
      BerkopecIdentity(k, m, K, M);
      CloseToOrLessThanIsThreshold(hypCdf, delta, 0.0, rtol);
      K := K - 1;
      BerkopecTermScaling(k, m, K, M);
      DivideSum(BerkopecUnnormalizedSingleTerm(k, m, K, M) as real, BerkopecSum(k, m, K + 1, M) as real, c);
      hypCdf := hypCdf + BerkopecSingleTerm(k, m, K, M);
    }
    result := K + 1;
    if K >= k {
      BerkopecIdentity(k, m, K, M);
      CloseToOrLessThanIsThreshold(hypCdf, delta, 0.0, rtol);
      forall J | k <= J <= K
        ensures HypergeometricLeftTail(k, m, J, M) > loosened
      {
        LeftTailNonIncreasing(k, m, J, K, M);
      }
    }
  }

  /** The naive search from above: re-evaluate the tail at every K. */
  method NaiveInverseFromAbove(k: nat, m: nat, delta: real, M: nat) returns (K: int)
    requires k <= m <= M
    ensures IsPseudoInverse(k, m, delta, M, K)
  {
    K := k;
    while HypergeometricLeftTail(k, m, K, M) > delta && K <= M - m + k
      invariant k <= K <= Top(k, m, M) + 1
      invariant forall J :: k <= J < K ==> HypergeometricLeftTail(k, m, J, M) > delta
      decreases Top(k, m, M) + 1 - K
    {
      K := K + 1;
    }
  }

  /** The naive search from below: re-evaluate the tail at every K while it is at most delta. */
  method NaiveInverseFromBelow(k: nat, m: nat, delta: real, M: nat) returns (result: int)
    requires k <= m <= M
    ensures IsPseudoInverse(k, m, delta, M, result)
  {
    var K := M - m + k;
    var hypCdf := HypergeometricLeftTail(k, m, K, M);
    while hypCdf <= delta && K >= k
      invariant k - 1 <= K <= Top(k, m, M)
      invariant hypCdf == HypergeometricLeftTail(k, m, K, M)
      invariant forall J :: K < J <= Top(k, m, M) ==> HypergeometricLeftTail(k, m, J, M) <= delta
      decreases K
    {
      K := K - 1;
      hypCdf := HypergeometricLeftTail(k, m, K, M);
    }
    result := K + 1;
    if K >= k {
      forall J | k <= J <= K
        ensures HypergeometricLeftTail(k, m, J, M) > delta
      {
        LeftTailNonIncreasing(k, m, J, K, M);
      }
    }
  }

  /** hypergeometric_left_tail_inverse: the Berkopec search in the requested direction. */
  method HypergeometricLeftTailInverse(k: nat, m: nat, delta: real, M: nat, start: Start) returns (K: int)
    requires k <= m <= M
    ensures start == Above ==> K == HypInv(k, m, delta, M)
    ensures start == Below ==> K == HypInv(k, m, WithTolerance(delta, BelowRtol), M)
  {
    match start
    case Above =>
      K := InverseFromAbove(k, m, delta, M);
      PseudoInverseUnique(k, m, delta, M, K, HypInv(k, m, delta, M));
    case Below =>
      K := InverseFromBelow(k, m, delta, M, BelowRtol);
      PseudoInverseUnique(k, m, WithTolerance(delta, BelowRtol), M, K, HypInv(k, m, WithTolerance(delta, BelowRtol), M));
  }

  /** naive_hypergeometric_left_tail_inverse: the naive search in the requested direction. */
  method NaiveHypergeometricLeftTailInverse(k: nat, m: nat, delta: real, M: nat, start: Start) returns (K: int)
    requires k <= m <= M
    ensures K == HypInv(k, m, delta, M)
  {
    match start
    case Above =>
      K := NaiveInverseFromAbove(k, m, delta, M);
    case Below =>
      K := NaiveInverseFromBelow(k, m, delta, M);
    PseudoInverseUnique(k, m, delta, M, K, HypInv(k, m, delta, M));
  }

  /** At zero tolerance the four searches return the same count. */
  method SearchesAgree(k: nat, m: nat, delta: real, M: nat)
    returns (above: int, below: int, naiveAbove: int, naiveBelow: int)
    requires k <= m <= M
    ensures above == below == naiveAbove == naiveBelow == HypInv(k, m, delta, M)
  {
    above := InverseFromAbove(k, m, delta, M);
    below := InverseFromBelow(k, m, delta, M, 0.0);
    naiveAbove := NaiveInverseFromAbove(k, m, delta, M);
    naiveBelow := NaiveInverseFromBelow(k, m, delta, M);
    assert WithTolerance(delta, 0.0) == delta;
    PseudoInverseUnique(k, m, delta, M, above, below);
    PseudoInverseUnique(k, m, delta, M, above, naiveAbove);
    PseudoInverseUnique(k, m, delta, M, above, naiveBelow);
    PseudoInverseUnique(k, m, delta, M, above, HypInv(k, m, delta, M));
  }

  /** With the source's tolerance the search from below can only stop earlier than the search
      from above, and agrees with it unless a tail value falls in (delta, delta + 10e-16 |delta|]. */
  method DirectionsAgree(k: nat, m: nat, delta: real, M: nat) returns (above: int, below: int)
    requires k <= m <= M
    ensures below <= above
    ensures (forall J :: k <= J <= Top(k, m, M) ==>
               !(delta < HypergeometricLeftTail(k, m, J, M) <= WithTolerance(delta, BelowRtol)))
            ==> below == above
  {
    above := HypergeometricLeftTailInverse(k, m, delta, M, Above);
    below := HypergeometricLeftTailInverse(k, m, delta, M, Below);
    HypInvAntitone(k, m, delta, WithTolerance(delta, BelowRtol), M);
    if forall J :: k <= J <= Top(k, m, M) ==>
         !(delta < HypergeometricLeftTail(k, m, J, M) <= WithTolerance(delta, BelowRtol)) {
      HypInvStable(k, m, delta, WithTolerance(delta, BelowRtol), M);
    }
  }
}
