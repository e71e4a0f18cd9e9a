/** The upper bound on the true risk of `source/generalization_bounds.py`, built on the pseudo-inverse
    of the hypergeometric left tail, and its search for the ghost-sample size mprime: a full scan of
    mprime = 1 .. max_mprime followed by the median of the values that tie with the best one.

    The growth function of the hypothesis class is a parameter; a growth function counts the
    dichotomies realised on a sample, so it is positive. */
module SourceBounds {
  import opened Tolerance
  import opened Hypergeometric
  import opened TailInverse
  import opened Options

  /** The relative tolerance 10e-12 under which two scanned bounds count as tied. */
  const TieRtol: real := 0.00000000001

  ghost predicate PositiveGrowth(growth: nat -> real)
  {
    forall n :: growth(n) > 0.0
  }

  function Max(a: int, b: int): int
  {
    if a >= b then a else b
  }

  /** When mprime is not given, the scan runs up to 15 m unless told otherwise. */
  function MaxMprimeOrDefault(maxMprime: Option<nat>, m: nat): nat
  {
    maxMprime.GetOr(15 * m)
  }

  // ---------------------------------------------------------------------------------------------
  // Real arithmetic used below

  lemma RatioBounds(a: int, n: int)
    requires 1 <= a <= n
    ensures 0.0 < 1.0 / n as real <= a as real / n as real <= 1.0
  {
    DivideMonotone(1.0, a as real, n as real);
    DivideMonotone(a as real, n as real, n as real);
  }

  lemma DenominatorAntitone(x: real, g1: real, g2: real)
    requires x >= 0.0 && 0.0 < g1 <= g2
    ensures x / g2 <= x / g1
  {
    var q1, q2 := x / g1, x / g2;
    assert q1 * g1 == x && q2 * g2 == x;
    if q2 > q1 {
      assert q2 * g2 >= q2 * g1;
      assert q2 * g1 > q1 * g1;
    }
  }

  // ---------------------------------------------------------------------------------------------
  // The bound for a given ghost-sample size

  /** hypinv_upperbound with an explicit ghost-sample size mprime: 1 when every example is an
      error, and otherwise max(1, HypInv(k, m, delta / 4 / growth(m + mprime), m + mprime) - 1 - k)
      divided by mprime. Whatever delta, the value lies in [1 / mprime, 1]. */
  function HypinvUpperboundAt(k: nat, m: nat, growth: nat -> real, delta: real, mprime: nat): (epsilon: real)
    requires k <= m && mprime >= 1
    requires k == m || growth(m + mprime) != 0.0
    ensures 0.0 < 1.0 / mprime as real <= epsilon <= 1.0
    ensures k == m ==> epsilon == 1.0
  {
    if k == m then
      RatioBounds(1, mprime);
      1.0
    else
      var K := HypInv(k, m, delta / 4.0 / growth(m + mprime), m + mprime);
      var count := Max(1, K - 1 - k);
      RatioBounds(count, mprime);
      count as real / mprime as real
  }

  /** The bound covers every population: any number K of errors among the m + mprime examples that
      the tail test at delta / 4 / growth(m + mprime) does not reject gives a ghost-sample error
      rate (K - k) / mprime of at most the bound. */
  lemma UpperboundCoversUnrejected(k: nat, m: nat, growth: nat -> real, delta: real, mprime: nat, K: int)
    requires k < m && mprime >= 1 && growth(m + mprime) != 0.0
    requires k <= K <= Top(k, m, m + mprime)
    requires HypergeometricLeftTail(k, m, K, m + mprime) > delta / 4.0 / growth(m + mprime)
    ensures (K - k) as real / mprime as real <= HypinvUpperboundAt(k, m, growth, delta, mprime)
  {
    var M := m + mprime;
    var threshold := delta / 4.0 / growth(M);
    var inverse := HypInv(k, m, threshold, M);
    if K >= inverse {
      LeftTailNonIncreasing(k, m, inverse, K, M);
      assert false;
    }
    DivideMonotone((K - k) as real, Max(1, inverse - 1 - k) as real, mprime as real);
  }

  /** A larger confidence parameter never gives a larger bound. */
  lemma UpperboundAntitoneInDelta(k: nat, m: nat, growth: nat -> real, delta1: real, delta2: real, mprime: nat)
    requires k <= m && mprime >= 1 && growth(m + mprime) > 0.0 && delta1 <= delta2
    ensures HypinvUpperboundAt(k, m, growth, delta2, mprime) <= HypinvUpperboundAt(k, m, growth, delta1, mprime)
  {
    if k < m {
      var M, g := m + mprime, growth(m + mprime);
      DivideMonotone(delta1, delta2, 4.0);
      DivideMonotone(delta1 / 4.0, delta2 / 4.0, g);
      HypInvAntitone(k, m, delta1 / 4.0 / g, delta2 / 4.0 / g, M);
      var count1 := Max(1, HypInv(k, m, delta1 / 4.0 / g, M) - 1 - k);
      var count2 := Max(1, HypInv(k, m, delta2 / 4.0 / g, M) - 1 - k);
      DivideMonotone(count2 as real, count1 as real, mprime as real);
    }
  }

  /** A richer hypothesis class (a larger growth function) never gives a smaller bound. */
  lemma UpperboundMonotoneInGrowth(k: nat, m: nat, growth1: nat -> real, growth2: nat -> real, delta: real, mprime: nat)
    requires k <= m && mprime >= 1 && delta >= 0.0
    requires 0.0 < growth1(m + mprime) <= growth2(m + mprime)
    ensures HypinvUpperboundAt(k, m, growth1, delta, mprime) <= HypinvUpperboundAt(k, m, growth2, delta, mprime)
  {
    if k < m {
      var M := m + mprime;
      var g1, g2 := growth1(M), growth2(M);
      DenominatorAntitone(delta / 4.0, g1, g2);
      HypInvAntitone(k, m, delta / 4.0 / g2, delta / 4.0 / g1, M);
      var count1 := Max(1, HypInv(k, m, delta / 4.0 / g1, M) - 1 - k);
      var count2 := Max(1, HypInv(k, m, delta / 4.0 / g2, M) - 1 - k);
      DivideMonotone(count1 as real, count2 as real, mprime as real);
    }
  }

  // ---------------------------------------------------------------------------------------------
  // The scan over mprime and the median of the ties

  /** The bounds the scan computes, for mprime = 1 .. n in order; each lies in (0, 1]. */
  function UpperboundValues(k: nat, m: nat, growth: nat -> real, delta: real, n: nat): (values: seq<real>)
    requires k <= m && PositiveGrowth(growth)
    ensures |values| == n
    ensures forall i :: 0 <= i < n ==> 0.0 < values[i] <= 1.0
    decreases n
  {
    if n == 0 then []
    else UpperboundValues(k, m, growth, delta, n - 1) + [HypinvUpperboundAt(k, m, growth, delta, n)]
  }

  lemma {:induction false} UpperboundValuesAt(k: nat, m: nat, growth: nat -> real, delta: real, n: nat, mprime: nat)
    requires k <= m && PositiveGrowth(growth) && 1 <= mprime <= n
    ensures UpperboundValues(k, m, growth, delta, n)[mprime - 1] == HypinvUpperboundAt(k, m, growth, delta, mprime)
    decreases n
  {
    if mprime < n {
      UpperboundValuesAt(k, m, growth, delta, n - 1, mprime);
    }
  }

  /** The best bound after scanning values from left to right, starting from 1 and keeping any
      value at most the current best: the minimum of 1 and all the values. */
  function RunningMin(values: seq<real>): (best: real)
    ensures best <= 1.0
    ensures forall i :: 0 <= i < |values| ==> best <= values[i]
    ensures best == 1.0 || exists i :: 0 <= i < |values| && values[i] == best
    decreases |values|
  {
    if |values| == 0 then 1.0
    else
      var best := RunningMin(values[..|values| - 1]);
      if values[|values| - 1] <= best then values[|values| - 1] else best
  }

  /** Scanning one more value keeps it when it is at most the best so far. */
  lemma RunningMinStep(values: seq<real>, value: real)
    ensures RunningMin(values + [value]) == if value <= RunningMin(values) then value else RunningMin(values)
  {
    assert (values + [value])[..|values|] == values;
  }

  /** The 1-based positions among the first n values that are within the tie tolerance of best,
      in increasing order. */
  function NearBest(values: seq<real>, best: real, n: nat): (ties: seq<nat>)
    requires n <= |values|
    ensures forall j :: 0 <= j < |ties| ==> 1 <= ties[j] <= n
    ensures forall j1, j2 :: 0 <= j1 < j2 < |ties| ==> ties[j1] < ties[j2]
    ensures forall mp :: 1 <= mp <= n ==> (mp in ties <==> CloseTo(values[mp - 1], best, 0.0, TieRtol))
    decreases n
  {
    if n == 0 then []
    else NearBest(values, best, n - 1) + (if CloseTo(values[n - 1], best, 0.0, TieRtol) then [n] else [])
  }

  /** When all values are at most 1 the best value is attained, so at least one position ties with it. */
  lemma BestIsTied(values: seq<real>)
    requires forall i :: 0 <= i < |values| ==> values[i] <= 1.0
    requires |values| >= 1
    ensures |NearBest(values, RunningMin(values), |values|)| >= 1
  {
    var best := RunningMin(values);
    var first :| 0 <= first < |values| && values[first] == best;
    CloseToReflexive(best, 0.0, TieRtol);
    assert first + 1 in NearBest(values, best, |values|);
  }

  /** The mprime the scan settles on: the median of the positions tied with the best value. It is
      within the tie tolerance of the best value. */
  function MedianOfBest(values: seq<real>): (mprime: nat)
    requires |values| >= 1
    requires forall i :: 0 <= i < |values| ==> values[i] <= 1.0
    ensures 1 <= mprime <= |values|
    ensures CloseTo(values[mprime - 1], RunningMin(values), 0.0, TieRtol)
  {
    var ties := NearBest(values, RunningMin(values), |values|);
    BestIsTied(values);
    var chosen := ties[|ties| / 2];
    assert 1 <= chosen <= |values| && chosen in ties;
    chosen
  }

  /** The value at the median of the ties is within the tie tolerance of the best value. */
  lemma MedianValueIsNearBest(values: seq<real>, value: real)
    requires |values| >= 1
    requires forall i :: 0 <= i < |values| ==> values[i] <= 1.0
    requires value == values[MedianOfBest(values) - 1]
    ensures CloseTo(value, RunningMin(values), 0.0, TieRtol)
  {
  }

  /** The bound at the median of the ties is within the tie tolerance of the best bound. */
  lemma MedianIsNearBest(k: nat, m: nat, growth: nat -> real, delta: real, n: nat)
    requires k <= m && n >= 1 && PositiveGrowth(growth)
    ensures var values := UpperboundValues(k, m, growth, delta, n);
            CloseTo(HypinvUpperboundAt(k, m, growth, delta, MedianOfBest(values)), RunningMin(values), 0.0, TieRtol)
  {
    var values := UpperboundValues(k, m, growth, delta, n);
    var mprime := MedianOfBest(values);
    UpperboundValuesAt(k, m, growth, delta, n, mprime);
    MedianValueIsNearBest(values, HypinvUpperboundAt(k, m, growth, delta, mprime));
  }

  /** The second pass of the scan: the 1-based positions of the bounds within the tie tolerance
      of best, in increasing order. */
  method TiedPositions(bounds: array<real>, best: real) returns (ties: seq<nat>)
    ensures ties == NearBest(bounds[..], best, bounds.Length)
  {
    ties := [];
    var i := 0;
    while i < bounds.Length
      invariant 0 <= i <= bounds.Length
      invariant ties == NearBest(bounds[..], best, i)
    {
      if CloseTo(bounds[i], best, 0.0, TieRtol) {
        ties := ties + [i + 1];
      }
      i := i + 1;
    }
  }

  /** The bound at mprime, as the mprime-th of the scanned values. */
  method EvaluateUpperbound(k: nat, m: nat, growth: nat -> real, delta: real, n: nat, mprime: nat)
    returns (bound: real)
    requires k <= m && PositiveGrowth(growth) && 1 <= mprime <= n
    ensures bound == UpperboundValues(k, m, growth, delta, n)[mprime - 1]
  {
    bound := HypinvUpperboundAt(k, m, growth, delta, mprime);
    UpperboundValuesAt(k, m, growth, delta, n, mprime);
  }

  /** The first pass of the scan: fill an array that starts as all ones with the bound at each
      mprime = 1 .. max_mprime, keeping the best bound seen (a later bound that equals it replaces it). */
  method ScanBounds(k: nat, m: nat, growth: nat -> real, delta: real, maxMprime: nat)
    returns (bounds: array<real>, bestBound: real)
    requires k <= m && PositiveGrowth(growth)
    ensures fresh(bounds)
    ensures bounds[..] == UpperboundValues(k, m, growth, delta, maxMprime)
    ensures bestBound == RunningMin(bounds[..])
  {
    ghost var values := UpperboundValues(k, m, growth, delta, maxMprime);
    bounds := new real[maxMprime](_ => 1.0);
    bestBound := 1.0;
    var mp := 1;
    while mp <= maxMprime
      invariant 1 <= mp <= maxMprime + 1
      invariant bounds[..mp - 1] == values[..mp - 1]
      invariant bestBound == RunningMin(values[..mp - 1])
    {
      var bound := EvaluateUpperbound(k, m, growth, delta, maxMprime, mp);
      ghost var before := bounds[..mp - 1];
      bounds[mp - 1] := bound;
      assert bounds[..mp] == before + [bound];
      assert values[..mp] == values[..mp - 1] + [bound];
      RunningMinStep(values[..mp - 1], bound);
      if bound <= bestBound {
        bestBound := bound;
      }
      mp := mp + 1;
    }
    assert bounds[..] == bounds[..maxMprime];
    assert values == values[..maxMprime];
  }

  /** _optimize_mprime: scan mprime = 1 .. max_mprime, then return the median of the positions
      tied with the best bound. */
  method OptimizeMprime(k: nat, m: nat, growth: nat -> real, delta: real, maxMprime: nat) returns (mprime: nat)
    requires k <= m && maxMprime >= 1 && PositiveGrowth(growth)
    ensures 1 <= mprime <= maxMprime
    ensures mprime == MedianOfBest(UpperboundValues(k, m, growth, delta, maxMprime))
    ensures CloseTo(HypinvUpperboundAt(k, m, growth, delta, mprime),
                    RunningMin(UpperboundValues(k, m, growth, delta, maxMprime)), 0.0, TieRtol)
  {
    var bounds, bestBound := ScanBounds(k, m, growth, delta, maxMprime);
    var bestMprimes := TiedPositions(bounds, bestBound);
    BestIsTied(bounds[..]);
    mprime := bestMprimes[|bestMprimes| / 2];
    MedianIsNearBest(k, m, growth, delta, maxMprime);
  }

  /** hypinv_upperbound: 1 when k == m; otherwise the bound at the given mprime, or at the mprime
      chosen by the scan up to max_mprime (15 m by default). */
  method HypinvUpperbound(k: nat, m: nat, growth: nat -> real, delta: real, mprime: Option<nat>, maxMprime: Option<nat>)
    returns (epsilon: real)
    requires k <= m && PositiveGrowth(growth)
    requires mprime.Some? ==> mprime.value >= 1
    requires k < m && mprime.None? ==> MaxMprimeOrDefault(maxMprime, m) >= 1
    ensures 0.0 < epsilon <= 1.0
    ensures k == m ==> epsilon == 1.0
    ensures k < m && mprime.Some? ==> epsilon == HypinvUpperboundAt(k, m, growth, delta, mprime.value)
    ensures k < m && mprime.None? ==>
              var values := UpperboundValues(k, m, growth, delta, MaxMprimeOrDefault(maxMprime, m));
              epsilon == HypinvUpperboundAt(k, m, growth, delta, MedianOfBest(values))
              && CloseTo(epsilon, RunningMin(values), 0.0, TieRtol)
  {
    if k == m {
      return 1.0;
    }
    var chosen: nat;
    if mprime.None? {
      chosen := OptimizeMprime(k, m, growth, delta, MaxMprimeOrDefault(maxMprime, m));
    } else {
      chosen := mprime.value;
    }
    epsilon := HypinvUpperboundAt(k, m, growth, delta, chosen);
  }
}
