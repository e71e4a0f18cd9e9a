/** The hypergeometric distribution of `source/hypergeometric_distribution.py`, in exact arithmetic.

    Notation of the source: a sample of m items is drawn without replacement from a population of
    M items, K of which are errors; k is the number of errors seen in the sample. The left tail
    Hyp(k, m, K, M) is the probability of seeing at most k errors. Berkopec's formula rewrites it as
    a sum over the population count J = K .. M - m + k, which is what the tail-inverse searches walk. */
module Hypergeometric {
  import opened Binomial

  /** The last population count of Berkopec's sum, M - m + k. */
  function Top(k: int, m: int, M: int): int
  {
    M - m + k
  }

  /** Probability of exactly j errors in the sample: C(K, j) C(M - K, m - j) / C(M, m). */
  function HypergeometricPmf(j: int, m: nat, K: int, M: nat): (p: real)
    requires m <= M
    ensures p >= 0.0
  {
    (Binom(K, j) * Binom(M - K, m - j)) as real / Binom(M, m) as real
  }

  /** C(M, m) times the left tail: the number of m-samples with at most k errors,
      sum over j = 0 .. k of C(K, j) C(M - K, m - j). */
  function TailCount(k: int, m: int, K: int, M: int): nat
    decreases k + 1
  {
    if k < 0 then 0 else TailCount(k - 1, m, K, M) + Binom(K, k) * Binom(M - K, m - k)
  }

  /** The left tail Hyp(k, m, K, M), exactly. */
  function HypergeometricLeftTail(k: int, m: nat, K: int, M: nat): (p: real)
    requires m <= M
    ensures p >= 0.0
  {
    TailCount(k, m, K, M) as real / Binom(M, m) as real
  }

  /** The left tail written as the explicit sum of the pmf over j = 0 .. k. */
  function PmfSum(k: int, m: nat, K: int, M: nat): real
    requires m <= M
    decreases k + 1
  {
    if k < 0 then 0.0 else PmfSum(k - 1, m, K, M) + HypergeometricPmf(k, m, K, M)
  }

  /** One term of Berkopec's sum, not divided by C(M, m). The case M == K, m == k stands for
      C(K, k) C(-1, 0) with the convention C(-1, 0) = 1. */
  function BerkopecUnnormalizedSingleTerm(k: int, m: int, K: int, M: int): (c: nat)
    ensures K < k || K > Top(k, m, M) ==> c == 0
  {
    if M == K && m == k then Binom(K, k)
    else Binom(K, k) * Binom(M - K - 1, M - K - m + k)
  }

  /** One term of Berkopec's sum, divided by C(M, m). */
  function BerkopecSingleTerm(k: int, m: nat, K: int, M: nat): (p: real)
    requires m <= M
    ensures p >= 0.0
    ensures K < k || K > Top(k, m, M) ==> p == 0.0
  {
    if M == K && m == k then 1.0
    else (Binom(K, k) * Binom(M - K - 1, M - K - m + k)) as real / Binom(M, m) as real
  }

  /** Sum of the unnormalised Berkopec terms for J = K .. M - m + k. */
  function BerkopecSum(k: int, m: int, K: int, M: int): (c: nat)
    ensures K > Top(k, m, M) ==> c == 0
    ensures K <= Top(k, m, M) ==> c >= BerkopecUnnormalizedSingleTerm(k, m, K, M)
    decreases Top(k, m, M) + 1 - K
  {
    if K > Top(k, m, M) then 0
    else BerkopecUnnormalizedSingleTerm(k, m, K, M) + BerkopecSum(k, m, K + 1, M)
  }

  /** The left tail computed by Berkopec's formula. */
  function HypergeometricBerkopecLeftTail(k: int, m: nat, K: int, M: nat): (p: real)
    requires m <= M
    ensures p >= 0.0
    ensures K > Top(k, m, M) ==> p == 0.0
  {
    BerkopecSum(k, m, K, M) as real / Binom(M, m) as real
  }

  // ---------------------------------------------------------------------------------------------
  // Arithmetic helpers over the positive normaliser C(M, m)

  lemma NormaliserPositive(m: nat, M: nat)
    requires m <= M
    ensures Binom(M, m) > 0
  {
  }

  lemma DivideMonotone(x: real, y: real, c: real)
    requires c > 0.0 && x <= y
    ensures x / c <= y / c
  {
  }

  lemma DivideStrictlyMonotone(x: real, y: real, c: real)
    requires c > 0.0 && x < y
    ensures x / c < y / c
  {
  }

  lemma ProductPositive(a: nat, b: nat)
    requires a > 0 && b > 0
    ensures a * b > 0
  {
  }

  lemma DivideSum(x: real, y: real, c: real)
    requires c != 0.0
    ensures (x + y) / c == x / c + y / c
  {
  }

  lemma DivideSelf(c: real)
    requires c != 0.0
    ensures c / c == 1.0
  {
  }

  /** The algebra of one telescoping step, over plain integers. */
  lemma TelescopeAlgebra(now: int, next: int, lo: int, hi: int, a: int, b: int, c: int, d: int, e: int, f: int)
    requires now == lo + a * e && e == c + d
    requires next == hi + f * c && f == a + b
    requires lo == hi + b * c
    ensures now == next + a * d
  {
  }

  // ---------------------------------------------------------------------------------------------
  // The terms

  /** The normalised term is the unnormalised term divided by C(M, m), in the special case too
      (there the unnormalised term is C(K, k) = C(M, m) and the normalised one is 1). */
  lemma BerkopecTermScaling(k: int, m: nat, K: int, M: nat)
    requires m <= M
    ensures BerkopecSingleTerm(k, m, K, M)
         == BerkopecUnnormalizedSingleTerm(k, m, K, M) as real / Binom(M, m) as real
  {
    if M == K && m == k {
      NormaliserPositive(m, M);
      DivideSelf(Binom(M, m) as real);
    }
  }

  /** Below the population size, a Berkopec term counts the m-samples whose (k+1)-th smallest
      member is item K: C(K, k) ways below it and C(M - K - 1, m - k - 1) above it. */
  lemma BerkopecTermCountsPlacements(k: int, m: int, K: int, M: int)
    requires 0 <= K < M
    ensures BerkopecUnnormalizedSingleTerm(k, m, K, M) == Binom(K, k) * Binom(M - K - 1, m - k - 1)
  {
    Symmetry(M - K - 1, M - K - m + k);
  }

  /** The pmf summed over j = 0 .. k is the left tail. */
  lemma {:induction false} LeftTailIsSumOfPmf(k: int, m: nat, K: int, M: nat)
    requires m <= M
    ensures HypergeometricLeftTail(k, m, K, M) == PmfSum(k, m, K, M)
    decreases k + 1
  {
    if k >= 0 {
      LeftTailIsSumOfPmf(k - 1, m, K, M);
      var c := Binom(M, m) as real;
      var a := TailCount(k - 1, m, K, M) as real;
      var b := (Binom(K, k) * Binom(M - K, m - k)) as real;
      NormaliserPositive(m, M);
      DivideSum(a, b, c);
    }
  }

  // ---------------------------------------------------------------------------------------------
  // Telescoping: how the tail changes when one more population item becomes an error

  /** Turning item K into an error loses exactly the samples that contain item K and exactly k
      errors among items 0 .. K - 1. Two uses of Pascal's rule, by induction on k. */
  lemma {:induction false} TailStep(k: int, m: int, K: int, M: int)
    requires 0 <= K < M && k >= -1
    ensures TailCount(k, m, K, M)
         == TailCount(k, m, K + 1, M) + Binom(K, k) * Binom(M - K - 1, m - 1 - k)
    decreases k + 1
  {
    if k >= 0 {
      TailStep(k - 1, m, K, M);
      Pascal(K + 1, k);
      Pascal(M - K, m - k);
      var a, b := Binom(K, k), Binom(K, k - 1);
      var c, d := Binom(M - K - 1, m - k), Binom(M - K - 1, m - k - 1);
      var lo, hi := TailCount(k - 1, m, K, M), TailCount(k - 1, m, K + 1, M);
      TelescopeAlgebra(TailCount(k, m, K, M), TailCount(k, m, K + 1, M), lo, hi,
                       a, b, c, d, Binom(M - K, m - k), Binom(K + 1, k));
    }
  }

  /** Beyond M - m + k errors in the population, no sample has at most k errors. */
  lemma {:induction false} TailVanishesBeyondTop(k: int, m: int, K: int, M: int)
    requires K > Top(k, m, M)
    ensures TailCount(k, m, K, M) == 0
    decreases k + 1
  {
    if k >= 0 {
      TailVanishesBeyondTop(k - 1, m, K, M);
      assert Binom(M - K, m - k) == 0;
    }
  }

  /** Every sample has at most k errors when K <= k or k >= m, so the tail count is C(M, m).
      With k = m this is Vandermonde's identity: the pmf sums to one. */
  lemma {:induction false} TailIsTotal(k: int, m: int, K: int, M: int)
    requires 0 <= K <= M && 0 <= k && (K <= k || m <= k)
    ensures TailCount(k, m, K, M) == Binom(M, m)
    decreases K
  {
    if K == 0 {
      TailAtZero(k, m, M);
    } else {
      TailIsTotal(k, m, K - 1, M);
      TailStep(k, m, K - 1, M);
      assert Binom(K - 1, k) == 0 || Binom(M - K, m - 1 - k) == 0;
    }
  }

  lemma {:induction false} TailAtZero(k: int, m: int, M: int)
    requires k >= 0
    ensures TailCount(k, m, 0, M) == Binom(M, m)
    decreases k
  {
    if k > 0 {
      TailAtZero(k - 1, m, M);
    }
  }

  // ---------------------------------------------------------------------------------------------
  // Berkopec's identity

  /** Berkopec's identity: the sum of the terms J = K .. M - m + k is the left-tail count,
      for every K from 0 up to one past the last term. */
  lemma {:induction false} BerkopecIdentity(k: nat, m: nat, K: int, M: nat)
    requires k <= m <= M && 0 <= K <= Top(k, m, M) + 1
    ensures BerkopecSum(k, m, K, M) == TailCount(k, m, K, M)
    decreases Top(k, m, M) + 1 - K
  {
    if K == Top(k, m, M) + 1 {
      TailVanishesBeyondTop(k, m, K, M);
    } else {
      BerkopecIdentity(k, m, K + 1, M);
      if K == M {
        assert k == m;
        TailIsTotal(k, m, K, M);
        TailVanishesBeyondTop(k, m, K + 1, M);
      } else {
        TailStep(k, m, K, M);
        BerkopecTermCountsPlacements(k, m, K, M);
      }
    }
  }

  /** The Berkopec form of the left tail equals the sample-indexed form. */
  lemma BerkopecLeftTailAgrees(k: nat, m: nat, K: int, M: nat)
    requires k <= m <= M && 0 <= K <= Top(k, m, M) + 1
    ensures HypergeometricBerkopecLeftTail(k, m, K, M) == HypergeometricLeftTail(k, m, K, M)
  {
    BerkopecIdentity(k, m, K, M);
  }

  /** The whole Berkopec sum, from J = k, is C(M, m): the tail is 1 there. This is the value
      the search from above starts from. */
  lemma BerkopecSumFromK(k: nat, m: nat, M: nat)
    requires k <= m <= M
    ensures BerkopecSum(k, m, k, M) == Binom(M, m)
  {
    BerkopecIdentity(k, m, k, M);
    TailIsTotal(k, m, k, M);
  }

  /** The pmf sums to one over all sample outcomes j = 0 .. m. */
  lemma PmfSumsToOne(m: nat, K: int, M: nat)
    requires m <= M && 0 <= K <= M
    ensures PmfSum(m, m, K, M) == 1.0
  {
    TailIsTotal(m, m, K, M);
    LeftTailIsSumOfPmf(m, m, K, M);
    NormaliserPositive(m, M);
    DivideSelf(Binom(M, m) as real);
  }

  // ---------------------------------------------------------------------------------------------
  // Monotonicity in the population error count

  lemma {:induction false} TailNonIncreasing(k: int, m: int, K1: int, K2: int, M: int)
    requires 0 <= K1 <= K2 <= M && k >= -1
    ensures TailCount(k, m, K2, M) <= TailCount(k, m, K1, M)
    decreases K2 - K1
  {
    if K1 < K2 {
      TailStep(k, m, K1, M);
      TailNonIncreasing(k, m, K1 + 1, K2, M);
    }
  }

  /** For k < m the tail strictly decreases over k .. M - m + k + 1: every term there is positive. */
  lemma TailStrictlyDecreasing(k: nat, m: nat, K1: int, K2: int, M: nat)
    requires k < m <= M && k <= K1 < K2 <= Top(k, m, M) + 1
    ensures TailCount(k, m, K2, M) < TailCount(k, m, K1, M)
  {
    TailStep(k, m, K1, M);
    ProductPositive(Binom(K1, k), Binom(M - K1 - 1, m - 1 - k));
    TailNonIncreasing(k, m, K1 + 1, K2, M);
  }

  /** Hyp(k, m, K, M) is non-increasing in K. */
  lemma LeftTailNonIncreasing(k: nat, m: nat, K1: int, K2: int, M: nat)
    requires m <= M && 0 <= K1 <= K2 <= M
    ensures HypergeometricLeftTail(k, m, K2, M) <= HypergeometricLeftTail(k, m, K1, M)
  {
    TailNonIncreasing(k, m, K1, K2, M);
    NormaliserPositive(m, M);
    DivideMonotone(TailCount(k, m, K2, M) as real, TailCount(k, m, K1, M) as real, Binom(M, m) as real);
  }

  /** For k < m, Hyp(k, m, K, M) strictly decreases in K over k .. M - m + k + 1. */
  lemma LeftTailStrictlyDecreasing(k: nat, m: nat, K1: int, K2: int, M: nat)
    requires k < m <= M && k <= K1 < K2 <= Top(k, m, M) + 1
    ensures HypergeometricLeftTail(k, m, K2, M) < HypergeometricLeftTail(k, m, K1, M)
  {
    TailStrictlyDecreasing(k, m, K1, K2, M);
    NormaliserPositive(m, M);
    DivideStrictlyMonotone(TailCount(k, m, K2, M) as real, TailCount(k, m, K1, M) as real, Binom(M, m) as real);
  }

  /** Hyp is a probability, 1 for K <= k and 0 beyond M - m + k. */
  lemma LeftTailRange(k: nat, m: nat, K: int, M: nat)
    requires k <= m <= M && K >= 0
    ensures HypergeometricLeftTail(k, m, K, M) <= 1.0
    ensures K <= k ==> HypergeometricLeftTail(k, m, K, M) == 1.0
    ensures K > Top(k, m, M) ==> HypergeometricLeftTail(k, m, K, M) == 0.0
  {
    NormaliserPositive(m, M);
    if K <= M {
      TailNonIncreasing(k, m, 0, K, M);
      TailAtZero(k, m, M);
      DivideMonotone(TailCount(k, m, K, M) as real, Binom(M, m) as real, Binom(M, m) as real);
      DivideSelf(Binom(M, m) as real);
      if K <= k {
        TailIsTotal(k, m, K, M);
      }
    }
    if K > Top(k, m, M) {
      TailVanishesBeyondTop(k, m, K, M);
    }
  }
}
