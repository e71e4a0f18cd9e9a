/** The bounds of `hypergeo/generalization_bounds.py`: the upper and lower bounds on the true risk
    built on hypergeometric tail inversion, the general search for the ghost-sample size mprime
    (minimising or maximising, with optional early stopping) and the search of Catoni's bound over
    multiples of m.

    The growth function, the lower tail inverse and Catoni's bound are parameters. */
module HypergeoBounds {
  import opened Options
  import SourceBounds
  import Hypergeometric

  /** optimization_mode: 'min' looks for the smallest bound, anything else for the largest. */
  datatype OptimizationMode = Minimize | Maximize

  /** early_stopping: never (its default, infinity), or once that many steps have passed since the
      last best bound. */
  datatype Patience = Never | After(limit: int)

  /** sign * a <= sign * b, with sign 1 when minimising and -1 when maximising: a is at least as
      good as b. */
  predicate NoWorse(mode: OptimizationMode, a: real, b: real)
  {
    match mode
    case Minimize => a <= b
    case Maximize => -a <= -b
  }

  function Min(a: int, b: int): int
  {
    if a <= b then a else b
  }

  // ---------------------------------------------------------------------------------------------
  // optimize_mprime

  /** The best (mprime, bound) once the scan has evaluated minMprime .. t, starting from
      (minMprime, initialBest) and taking every bound no worse than the best so far. */
  function ScanBest(bound: int --> real, minMprime: int, mode: OptimizationMode, initialBest: real, t: int): (best: (int, real))
    requires forall mp :: minMprime <= mp <= t ==> bound.requires(mp)
    ensures t < minMprime ==> best == (minMprime, initialBest)
    decreases t - minMprime + 1
  {
    if t < minMprime then (minMprime, initialBest)
    else
      var previous := ScanBest(bound, minMprime, mode, initialBest, t - 1);
      if NoWorse(mode, bound(t), previous.1) then (t, bound(t)) else previous
  }

  /** What the best after minMprime .. t is: (minMprime, initialBest) when no evaluated bound is as
      good as initialBest, or else an evaluated mprime with its bound. Either way no evaluated bound
      is better, and every evaluated bound after it is strictly worse. */
  lemma {:induction false} ScanBestIsBest(bound: int --> real, minMprime: int, mode: OptimizationMode,
                                          initialBest: real, t: int)
    requires forall mp :: minMprime <= mp <= t ==> bound.requires(mp)
    ensures var best := ScanBest(bound, minMprime, mode, initialBest, t);
            && ((best.0 == minMprime && best.1 == initialBest
                 && forall mp :: minMprime <= mp <= t ==> !NoWorse(mode, bound(mp), initialBest))
                || (minMprime <= best.0 <= t && best.1 == bound(best.0)))
            && NoWorse(mode, best.1, initialBest)
            && (forall mp :: minMprime <= mp <= t ==> NoWorse(mode, best.1, bound(mp)))
            && (forall mp :: best.0 < mp <= t ==> !NoWorse(mode, bound(mp), best.1))
    decreases t - minMprime + 1
  {
    if t >= minMprime {
      ScanBestIsBest(bound, minMprime, mode, initialBest, t - 1);
    }
  }

  /** The steps since the last best once the scan has evaluated minMprime .. t, the step that
      found the best included. */
  function StepsSinceBest(bound: int --> real, minMprime: int, mode: OptimizationMode, initialBest: real, t: int): int
    requires forall mp :: minMprime <= mp <= t ==> bound.requires(mp)
  {
    t - ScanBest(bound, minMprime, mode, initialBest, t).0 + 1
  }

  /** The patience has not run out at any of minMprime .. t. */
  predicate PatientThrough(bound: int --> real, minMprime: int, mode: OptimizationMode, patience: Patience,
                           initialBest: real, t: int)
    requires forall mp :: minMprime <= mp <= t ==> bound.requires(mp)
    decreases t - minMprime + 1
  {
    t < minMprime
    || (PatientThrough(bound, minMprime, mode, patience, initialBest, t - 1)
        && (patience.After? ==> StepsSinceBest(bound, minMprime, mode, initialBest, t) < patience.limit))
  }

  /** Patience through t means patience at each step up to t. */
  lemma {:induction false} PatientThroughEach(bound: int --> real, minMprime: int, mode: OptimizationMode,
                                              patience: Patience, initialBest: real, t: int, s: int)
    requires forall mp :: minMprime <= mp <= t ==> bound.requires(mp)
    requires PatientThrough(bound, minMprime, mode, patience, initialBest, t)
    requires patience.After? && minMprime <= s <= t
    ensures StepsSinceBest(bound, minMprime, mode, initialBest, s) < patience.limit
    decreases t - s
  {
    if s < t {
      PatientThroughEach(bound, minMprime, mode, patience, initialBest, t - 1, s);
    }
  }

  /** Where the scan ends: at the first mprime at which the steps since the last best (the step
      that found it included) reach the patience, or at maxMprime when there is none. */
  predicate ScanStopsAt(bound: int --> real, minMprime: int, maxMprime: int, mode: OptimizationMode,
                        patience: Patience, initialBest: real, last: int)
    requires forall mp :: minMprime <= mp <= maxMprime ==> bound.requires(mp)
  {
    && minMprime - 1 <= last <= maxMprime
    && (minMprime <= maxMprime ==> minMprime <= last)
    && PatientThrough(bound, minMprime, mode, patience, initialBest, last - 1)
    && (last < maxMprime ==>
          patience.After? && StepsSinceBest(bound, minMprime, mode, initialBest, last) >= patience.limit)
  }

  /** The scan has exactly one place to stop. */
  lemma ScanStopIsUnique(bound: int --> real, minMprime: int, maxMprime: int, mode: OptimizationMode,
                         patience: Patience, initialBest: real, last1: int, last2: int)
    requires forall mp :: minMprime <= mp <= maxMprime ==> bound.requires(mp)
    requires ScanStopsAt(bound, minMprime, maxMprime, mode, patience, initialBest, last1)
    requires ScanStopsAt(bound, minMprime, maxMprime, mode, patience, initialBest, last2)
    ensures last1 == last2
  {
    if last1 < last2 {
      PatientThroughEach(bound, minMprime, mode, patience, initialBest, last2 - 1, last1);
    } else if last2 < last1 {
      PatientThroughEach(bound, minMprime, mode, patience, initialBest, last1 - 1, last2);
    }
  }

  /** Without early stopping the scan reaches maxMprime; with it, the scan ends at most
      max(early_stopping, 1) steps after the last best. */
  lemma ScanStopBounds(bound: int --> real, minMprime: int, maxMprime: int, mode: OptimizationMode,
                       patience: Patience, initialBest: real, last: int)
    requires forall mp :: minMprime <= mp <= maxMprime ==> bound.requires(mp)
    requires ScanStopsAt(bound, minMprime, maxMprime, mode, patience, initialBest, last)
    ensures patience.Never? ==> last == maxMprime
    ensures patience.After? && minMprime <= last ==>
              StepsSinceBest(bound, minMprime, mode, initialBest, last) <= SourceBounds.Max(patience.limit, 1)
  {
    if patience.After? && minMprime < last {
      PatientThroughEach(bound, minMprime, mode, patience, initialBest, last - 1, last - 1);
    }
  }

  /** The loop of optimize_mprime, started from the best bound initialBest: evaluate the bound at
      mprime = minMprime, minMprime + 1, ..., keep the last mprime whose bound is no worse than the
      best so far, and stop after maxMprime or once the steps since the last best reach the
      patience. The ghost result last is the last mprime evaluated; the answer is the best after
      it, and the scan stops at the first place where it may. */
  method ScanMprime(bound: int --> real, minMprime: int, maxMprime: int, mode: OptimizationMode,
                    patience: Patience, initialBest: real)
    returns (bestMprime: int, bestBound: real, ghost last: int)
    requires minMprime <= maxMprime + 1
    requires forall mp :: minMprime <= mp <= maxMprime ==> bound.requires(mp)
    ensures ScanStopsAt(bound, minMprime, maxMprime, mode, patience, initialBest, last)
    ensures (bestMprime, bestBound) == ScanBest(bound, minMprime, mode, initialBest, last)
    ensures minMprime - 1 <= last <= maxMprime
    ensures minMprime <= maxMprime ==> minMprime <= last
    ensures (bestMprime == minMprime && bestBound == initialBest
             && forall mp :: minMprime <= mp <= last ==> !NoWorse(mode, bound(mp), initialBest))
         || (minMprime <= bestMprime <= last && bestBound == bound(bestMprime))
    ensures NoWorse(mode, bestBound, initialBest)
    ensures forall mp :: minMprime <= mp <= last ==> NoWorse(mode, bestBound, bound(mp))
    ensures forall mp :: bestMprime < mp <= last ==> !NoWorse(mode, bound(mp), bestBound)
    ensures patience.Never? ==> last == maxMprime
    ensures last < maxMprime ==> patience.After? && last - bestMprime + 1 >= patience.limit
    ensures patience.After? && minMprime <= last ==> last - bestMprime + 1 <= SourceBounds.Max(patience.limit, 1)
  {
    var stepsSinceLastBest := 0;
    var bounds := seq(maxMprime - minMprime + 1, _ => 1.0);
    bestBound := initialBest;
    bestMprime := minMprime;
    var mprime := minMprime;
    last := minMprime - 1;
    while mprime <= maxMprime
      invariant minMprime <= mprime <= maxMprime + 1
      invariant last == mprime - 1
      invariant stepsSinceLastBest == last - bestMprime + 1
      invariant bestMprime == ScanBest(bound, minMprime, mode, initialBest, last).0
      invariant bestBound == ScanBest(bound, minMprime, mode, initialBest, last).1
      invariant PatientThrough(bound, minMprime, mode, patience, initialBest, last)
      invariant |bounds| == maxMprime - minMprime + 1
      invariant forall mp :: minMprime <= mp <= last ==> bounds[mp - minMprime] == bound(mp)
    {
      var boundValue := bound(mprime);
      bounds := bounds[mprime - minMprime := boundValue];
      last := mprime;
      if NoWorse(mode, boundValue, bestBound) {
        bestBound := boundValue;
        bestMprime := mprime;
        stepsSinceLastBest := 0;
      }
      stepsSinceLastBest := stepsSinceLastBest + 1;
      assert (bestMprime, bestBound) == ScanBest(bound, minMprime, mode, initialBest, last);
      if patience.After? && stepsSinceLastBest >= patience.limit {
        assert ScanStopsAt(bound, minMprime, maxMprime, mode, patience, initialBest, last);
        break;
      }
      mprime := mprime + 1;
    }
    ScanBestIsBest(bound, minMprime, mode, initialBest, last);
    ScanStopBounds(bound, minMprime, maxMprime, mode, patience, initialBest, last);
  }

  /** optimize_mprime as written: the scan starts from the best bound 1. Without early stopping the
      result is no worse than 1 and than every bound in the range; it is an evaluated bound, or
      (minMprime, 1) when no bound is as good as 1. Among equally good bounds the last one wins,
      and the scan stops where the patience first runs out. When maximising, a bound below 1 never
      counts as an improvement, so if every bound is below 1 the search returns minMprime with the
      bound 1, whatever the bounds are. */
  method OptimizeMprimeAsWritten(bound: int --> real, minMprime: int, maxMprime: int, mode: OptimizationMode,
                                 patience: Patience)
    returns (bestMprime: int, bestBound: real, ghost last: int)
    requires minMprime <= maxMprime + 1
    requires forall mp :: minMprime <= mp <= maxMprime ==> bound.requires(mp)
    ensures ScanStopsAt(bound, minMprime, maxMprime, mode, patience, 1.0, last)
    ensures (bestMprime, bestBound) == ScanBest(bound, minMprime, mode, 1.0, last)
    ensures NoWorse(mode, bestBound, 1.0)
    ensures (bestMprime == minMprime && bestBound == 1.0)
         || (minMprime <= bestMprime <= last && bestBound == bound(bestMprime))
    ensures forall mp :: minMprime <= mp <= last ==> NoWorse(mode, bestBound, bound(mp))
    ensures forall mp :: bestMprime < mp <= last ==> !NoWorse(mode, bound(mp), bestBound)
    ensures patience.Never? ==> forall mp :: minMprime <= mp <= maxMprime ==> NoWorse(mode, bestBound, bound(mp))
    ensures mode == Maximize && (forall mp :: minMprime <= mp <= maxMprime ==> bound(mp) < 1.0)
            ==> bestMprime == minMprime && bestBound == 1.0
  {
    bestMprime, bestBound, last := ScanMprime(bound, minMprime, maxMprime, mode, patience, 1.0);
  }

  /** optimize_mprime as intended: the scan starts from the first bound (as if from an infinitely
      bad bound), so the answer is always an evaluated mprime, its bound is the best of all the
      evaluated bounds, and among equally good bounds the last one wins. Without early stopping
      every mprime in [minMprime, maxMprime] is evaluated. An empty range gives minMprime and 1. */
  method OptimizeMprime(bound: int --> real, minMprime: int, maxMprime: int, mode: OptimizationMode,
                        patience: Patience)
    returns (bestMprime: int, bestBound: real, ghost last: int)
    requires minMprime <= maxMprime + 1
    requires forall mp :: minMprime <= mp <= maxMprime ==> bound.requires(mp)
    ensures minMprime > maxMprime ==> bestMprime == minMprime && bestBound == 1.0 && last == maxMprime
    ensures minMprime <= maxMprime ==>
              ScanStopsAt(bound, minMprime, maxMprime, mode, patience, bound(minMprime), last)
              && (bestMprime, bestBound) == ScanBest(bound, minMprime, mode, bound(minMprime), last)
    ensures minMprime <= maxMprime ==>
              minMprime <= bestMprime <= last <= maxMprime
              && bestBound == bound(bestMprime)
              && (forall mp :: minMprime <= mp <= last ==> NoWorse(mode, bestBound, bound(mp)))
              && (forall mp :: bestMprime < mp <= last ==> !NoWorse(mode, bound(mp), bestBound))
    ensures patience.Never? ==> last == maxMprime
    ensures last < maxMprime ==> patience.After? && last - bestMprime + 1 >= patience.limit
  {
    if minMprime > maxMprime {
      return minMprime, 1.0, maxMprime;
    }
    bestMprime, bestBound, last := ScanMprime(bound, minMprime, maxMprime, mode, patience, bound(minMprime));
  }

  // ---------------------------------------------------------------------------------------------
  // The upper bound

  /** hypinv_upperbound: 1 when k == m; otherwise the bound at the given mprime, or at the mprime
      chosen by minimising the bound over mprime = 1 .. max_mprime (15 m by default). The bound at
      a given mprime is the same as in source/generalization_bounds.py. The search is
      optimize_mprime as written; since every bound is at most 1, its start from 1 does no harm
      here: the chosen mprime is the last one reaching the smallest bound, so the result is an
      evaluated bound and at most the bound at any mprime in the range. */
  method HypinvUpperbound(k: nat, m: nat, growth: nat -> real, delta: real, mprime: Option<nat>, maxMprime: Option<nat>)
    returns (epsilon: real)
    requires k <= m && SourceBounds.PositiveGrowth(growth)
    requires mprime.Some? ==> mprime.value >= 1
    ensures 0.0 < epsilon <= 1.0
    ensures k == m ==> epsilon == 1.0
    ensures k < m && mprime.Some? ==> epsilon == SourceBounds.HypinvUpperboundAt(k, m, growth, delta, mprime.value)
    ensures k < m && mprime.None? && SourceBounds.MaxMprimeOrDefault(maxMprime, m) == 0 ==>
              epsilon == SourceBounds.HypinvUpperboundAt(k, m, growth, delta, 1)
    ensures k < m && mprime.None? ==>
              var n := SourceBounds.MaxMprimeOrDefault(maxMprime, m);
              (n >= 1 ==> exists mp :: 1 <= mp <= n && epsilon == SourceBounds.HypinvUpperboundAt(k, m, growth, delta, mp))
              && forall mp :: 1 <= mp <= n ==> epsilon <= SourceBounds.HypinvUpperboundAt(k, m, growth, delta, mp)
  {
    if k == m {
      return 1.0;
    }
    var chosen: int;
    if mprime.None? {
      var n := SourceBounds.MaxMprimeOrDefault(maxMprime, m);
      var bound := mp requires mp >= 1 => SourceBounds.HypinvUpperboundAt(k, m, growth, delta, mp);
      ghost var last;
      var best;
      chosen, best, last := OptimizeMprimeAsWritten(bound, 1, n, Minimize, Never);
      forall mp | 1 <= mp <= n
        ensures best <= SourceBounds.HypinvUpperboundAt(k, m, growth, delta, mp)
      {
        assert NoWorse(Minimize, best, bound(mp));
      }
    } else {
      chosen := mprime.value;
    }
    epsilon := SourceBounds.HypinvUpperboundAt(k, m, growth, delta, chosen);
  }

  // ---------------------------------------------------------------------------------------------
  // The lower bound

  /** hypinv_lowerbound with an explicit ghost-sample size mprime: 0 when there is no error, and
      otherwise min(mprime - 1, lowerInverse(k - 1, m, delta / 4 / growth(m + mprime), m + mprime)
      + 1 - k) divided by mprime. With an error the value is at most (mprime - 1) / mprime, so
      always below 1. */
  function HypinvLowerboundAt(k: nat, m: nat, growth: nat -> real, delta: real, mprime: nat,
                              lowerInverse: (nat, nat, real, nat) -> int): (epsilon: real)
    requires mprime >= 1
    requires k == 0 || growth(m + mprime) != 0.0
    ensures k == 0 ==> epsilon == 0.0
    ensures k >= 1 ==> epsilon <= (mprime - 1) as real / mprime as real
    ensures epsilon < 1.0
  {
    if k == 0 then 0.0
    else
      var count := Min(mprime - 1, lowerInverse(k - 1, m, delta / 4.0 / growth(m + mprime), m + mprime) + 1 - k);
      Hypergeometric.DivideMonotone(count as real, (mprime - 1) as real, mprime as real);
      SourceBounds.RatioBounds(mprime, mprime);
      Hypergeometric.DivideStrictlyMonotone((mprime - 1) as real, mprime as real, mprime as real);
      count as real / mprime as real
  }

  /** With a lower inverse that never answers below k - 1 (the least count that could have produced
      k - 1 errors), the lower bound is never negative. */
  lemma LowerboundNonNegative(k: nat, m: nat, growth: nat -> real, delta: real, mprime: nat,
                              lowerInverse: (nat, nat, real, nat) -> int)
    requires mprime >= 1 && growth(m + mprime) != 0.0
    requires k >= 1 ==> lowerInverse(k - 1, m, delta / 4.0 / growth(m + mprime), m + mprime) >= k - 1
    ensures 0.0 <= HypinvLowerboundAt(k, m, growth, delta, mprime, lowerInverse)
  {
    if k >= 1 {
      var count := Min(mprime - 1, lowerInverse(k - 1, m, delta / 4.0 / growth(m + mprime), m + mprime) + 1 - k);
      assert count >= 0;
      Hypergeometric.DivideMonotone(0.0, count as real, mprime as real);
    }
  }

  /** hypinv_lowerbound: 0 when k == 0; otherwise the bound at the given mprime, or at the mprime
      chosen by maximising the bound over mprime = 1 .. max_mprime (15 m by default). The chosen
      mprime is the last one reaching the largest bound, so the result is at least the bound at
      any mprime in the range. */
  method HypinvLowerbound(k: nat, m: nat, growth: nat -> real, delta: real, mprime: Option<nat>, maxMprime: Option<nat>,
                          lowerInverse: (nat, nat, real, nat) -> int)
    returns (epsilon: real)
    requires SourceBounds.PositiveGrowth(growth)
    requires mprime.Some? ==> mprime.value >= 1
    ensures epsilon < 1.0
    ensures k == 0 ==> epsilon == 0.0
    ensures k >= 1 && mprime.Some? ==> epsilon == HypinvLowerboundAt(k, m, growth, delta, mprime.value, lowerInverse)
    ensures k >= 1 && mprime.None? && SourceBounds.MaxMprimeOrDefault(maxMprime, m) >= 1 ==>
              var n := SourceBounds.MaxMprimeOrDefault(maxMprime, m);
              (exists mp :: 1 <= mp <= n && epsilon == HypinvLowerboundAt(k, m, growth, delta, mp, lowerInverse))
              && forall mp :: 1 <= mp <= n ==> HypinvLowerboundAt(k, m, growth, delta, mp, lowerInverse) <= epsilon
  {
    if k == 0 {
      return 0.0;
    }
    var chosen: int;
    if mprime.None? {
      var n := SourceBounds.MaxMprimeOrDefault(maxMprime, m);
      var bound := mp requires mp >= 1 => HypinvLowerboundAt(k, m, growth, delta, mp, lowerInverse);
      ghost var last;
      var best;
      chosen, best, last := OptimizeMprime(bound, 1, n, Maximize, Never);
      forall mp | 1 <= mp <= n
        ensures HypinvLowerboundAt(k, m, growth, delta, mp, lowerInverse) <= best
      {
        assert NoWorse(Maximize, best, bound(mp));
      }
    } else {
      chosen := mprime.value;
    }
    epsilon := HypinvLowerboundAt(k, m, growth, delta, chosen, lowerInverse);
  }

  /** hypinv_lowerbound as written, with the search of optimize_mprime as written: since every
      bound with an error is below 1, the search never leaves mprime = 1, and the optimised lower
      bound is the bound at mprime = 1, which is never positive. */
  method HypinvLowerboundAsWritten(k: nat, m: nat, growth: nat -> real, delta: real, maxMprime: Option<nat>,
                                   lowerInverse: (nat, nat, real, nat) -> int)
    returns (epsilon: real)
    requires SourceBounds.PositiveGrowth(growth)
    ensures k == 0 ==> epsilon == 0.0
    ensures k >= 1 ==> epsilon == HypinvLowerboundAt(k, m, growth, delta, 1, lowerInverse) && epsilon <= 0.0
  {
    if k == 0 {
      return 0.0;
    }
    var n := SourceBounds.MaxMprimeOrDefault(maxMprime, m);
    var bound := mp requires mp >= 1 => HypinvLowerboundAt(k, m, growth, delta, mp, lowerInverse);
    var chosen, best, last := OptimizeMprimeAsWritten(bound, 1, n, Maximize, Never);
    epsilon := HypinvLowerboundAt(k, m, growth, delta, chosen, lowerInverse);
  }

  // ---------------------------------------------------------------------------------------------
  // optimize_catoni

  /** The t-th multiple of m, built by repeated addition as the search steps through it. */
  function CatoniMprime(m: nat, t: nat): nat
  {
    if t == 0 then 0 else CatoniMprime(m, t - 1) + m
  }

  /** The multiples of m grow with their index. */
  lemma {:induction false} CatoniMprimeIncreasing(m: nat, t1: nat, t2: nat)
    requires m >= 1 && t1 < t2
    ensures CatoniMprime(m, t1) < CatoniMprime(m, t2)
    decreases t2
  {
    if t1 < t2 - 1 {
      CatoniMprimeIncreasing(m, t1, t2 - 1);
    }
  }

  /** The bound after step t of the search: the bound at the t-th multiple of m, and the starting
      bound 1 before the first step. */
  function CatoniBoundAt(bound: nat -> real, m: nat, t: nat): real
  {
    if t == 0 then 1.0 else bound(CatoniMprime(m, t))
  }

  /** The step, among the first n, at which the smallest bound was first reached (0 when none is
      below 1). */
  function CatoniBestStep(bound: nat -> real, m: nat, n: nat): (t: nat)
    ensures t <= n
  {
    if n == 0 then 0
    else
      var previous := CatoniBestStep(bound, m, n - 1);
      if CatoniBoundAt(bound, m, n) < CatoniBoundAt(bound, m, previous) then n else previous
  }

  /** The best step's bound is at most 1 and every bound of the first n steps, and strictly below
      every bound before it. */
  lemma {:induction false} CatoniBestStepIsBest(bound: nat -> real, m: nat, n: nat)
    ensures var t := CatoniBestStep(bound, m, n);
            && CatoniBoundAt(bound, m, t) <= 1.0
            && (forall s :: 1 <= s <= n ==> CatoniBoundAt(bound, m, t) <= CatoniBoundAt(bound, m, s))
            && (forall s :: 1 <= s < t ==> CatoniBoundAt(bound, m, t) < CatoniBoundAt(bound, m, s))
            && (t >= 1 ==> CatoniBoundAt(bound, m, t) < 1.0)
  {
    if n >= 1 {
      CatoniBestStepIsBest(bound, m, n - 1);
    }
  }

  /** The search goes on after step s: the bound at s is no worse than the best of the steps
      before it. */
  predicate Continued(bound: nat -> real, m: nat, s: nat)
  {
    s >= 1 && CatoniBoundAt(bound, m, s) <= CatoniBoundAt(bound, m, CatoniBestStep(bound, m, s - 1))
  }

  /** The loop's test at step n >= 1 (the best so far is at least the current bound) says that
      the search goes on after step n, and conversely. */
  lemma ContinuedIffGuard(bound: nat -> real, m: nat, n: nat)
    requires n >= 1
    ensures Continued(bound, m, n)
            <==> CatoniBoundAt(bound, m, CatoniBestStep(bound, m, n)) >= CatoniBoundAt(bound, m, n)
  {
  }

  /** Where the search of optimize_catoni stops, at step n: the n-th multiple of m is within
      max_mprime, the search went on after every earlier step, and unless the next multiple
      passes max_mprime, step n is the first worsening. */
  predicate CatoniStopsAt(bound: nat -> real, m: nat, max: int, n: nat)
  {
    && CatoniMprime(m, n) <= max
    && (forall s :: 1 <= s < n ==> Continued(bound, m, s))
    && (CatoniMprime(m, n + 1) <= max ==> n >= 1 && !Continued(bound, m, n))
  }

  /** The search has exactly one place to stop. */
  lemma CatoniStopIsUnique(bound: nat -> real, m: nat, max: int, n1: nat, n2: nat)
    requires m >= 1
    requires CatoniStopsAt(bound, m, max, n1) && CatoniStopsAt(bound, m, max, n2)
    ensures n1 == n2
  {
    if n1 + 1 < n2 {
      CatoniMprimeIncreasing(m, n1 + 1, n2);
    } else if n2 + 1 < n1 {
      CatoniMprimeIncreasing(m, n2 + 1, n1);
    }
  }

  /** The best bound of the first n steps is at most the bound at each of their multiples of m. */
  lemma CatoniBestBelowAll(bound: nat -> real, m: nat, n: nat)
    ensures forall t :: 1 <= t <= n ==>
              CatoniBoundAt(bound, m, CatoniBestStep(bound, m, n)) <= bound(CatoniMprime(m, t))
  {
    CatoniBestStepIsBest(bound, m, n);
    forall t | 1 <= t <= n
      ensures CatoniBoundAt(bound, m, CatoniBestStep(bound, m, n)) <= bound(CatoniMprime(m, t))
    {
      assert CatoniBoundAt(bound, m, t) == bound(CatoniMprime(m, t));
    }
  }

  /** When the loop of optimize_catoni ends at step n, it has stopped where CatoniStopsAt says,
      and a stop before max_mprime is on a bound strictly worse than the best. */
  lemma CatoniLoopExit(bound: nat -> real, m: nat, max: int, n: nat)
    requires CatoniMprime(m, n) <= max
    requires forall s :: 1 <= s < n ==> Continued(bound, m, s)
    requires CatoniMprime(m, n + 1) <= max ==>
               CatoniBoundAt(bound, m, CatoniBestStep(bound, m, n)) < CatoniBoundAt(bound, m, n)
    ensures CatoniStopsAt(bound, m, max, n)
    ensures CatoniMprime(m, n + 1) <= max ==>
              n >= 1 && CatoniBoundAt(bound, m, n) > CatoniBoundAt(bound, m, CatoniBestStep(bound, m, n))
  {
    if n >= 1 {
      ContinuedIffGuard(bound, m, n);
    }
  }

  /** optimize_catoni as written: evaluate the bound at mprime = m, 2 m, ... up to max_mprime
      (100 m by default) and stop at the first bound worse than the best so far; return the best
      bound and the last mprime evaluated, at step n. Whenever the search stops on a worse bound
      before reaching max_mprime, the returned mprime is that worse one: its bound is strictly
      above the returned best bound. */
  method OptimizeCatoniAsWritten(bound: nat -> real, m: nat, maxMprime: Option<nat>)
    returns (bestBound: real, bestMprime: int, ghost n: nat)
    requires m >= 1
    ensures bestBound == CatoniBoundAt(bound, m, CatoniBestStep(bound, m, n))
    ensures bestBound <= 1.0 && forall t :: 1 <= t <= n ==> bestBound <= bound(CatoniMprime(m, t))
    ensures bestMprime == CatoniMprime(m, n) <= maxMprime.GetOr(100 * m)
    ensures m <= maxMprime.GetOr(100 * m) ==> n >= 1 && m <= bestMprime
    ensures CatoniMprime(m, n + 1) <= maxMprime.GetOr(100 * m) ==>
              n >= 1 && CatoniBoundAt(bound, m, n) > bestBound
    ensures CatoniStopsAt(bound, m, maxMprime.GetOr(100 * m), n)
  {
    var mprime := m;
    var max := maxMprime.GetOr(100 * m);
    bestBound := 1.0;
    var currentBound := 1.0;
    n := 0;
    while bestBound >= currentBound && mprime <= max
      invariant mprime == CatoniMprime(m, n + 1)
      invariant CatoniMprime(m, n) <= max
      invariant bestBound == CatoniBoundAt(bound, m, CatoniBestStep(bound, m, n))
      invariant currentBound == CatoniBoundAt(bound, m, n)
      invariant forall s :: 1 <= s < n ==> Continued(bound, m, s)
      decreases max - mprime
    {
      if n >= 1 {
        ContinuedIffGuard(bound, m, n);
      }
      currentBound := bound(mprime);
      assert currentBound == CatoniBoundAt(bound, m, n + 1);
      if currentBound < bestBound {
        bestBound := currentBound;
      }
      mprime := mprime + m;
      n := n + 1;
    }
    bestMprime := mprime - m;
    CatoniBestStepIsBest(bound, m, n);
    CatoniBestBelowAll(bound, m, n);
    if n >= 1 {
      CatoniMprimeIncreasing(m, 0, n);
    }
    CatoniLoopExit(bound, m, max, n);
  }

  /** optimize_catoni as intended: the same search, returning the mprime at which the best bound
      was first reached (m when no bound beat 1). */
  method OptimizeCatoni(bound: nat -> real, m: nat, maxMprime: Option<nat>)
    returns (bestBound: real, bestMprime: int, ghost n: nat)
    requires m >= 1
    ensures CatoniMprime(m, n) <= maxMprime.GetOr(100 * m)
    ensures bestBound == CatoniBoundAt(bound, m, CatoniBestStep(bound, m, n))
    ensures bestBound < 1.0 ==> bestMprime == CatoniMprime(m, CatoniBestStep(bound, m, n)) && bound(bestMprime) == bestBound
    ensures bestBound == 1.0 ==> bestMprime == m
    ensures CatoniMprime(m, n + 1) <= maxMprime.GetOr(100 * m) ==>
              n >= 1 && CatoniBoundAt(bound, m, n) > bestBound
    ensures CatoniStopsAt(bound, m, maxMprime.GetOr(100 * m), n)
  {
    var mprime := m;
    var max := maxMprime.GetOr(100 * m);
    bestBound := 1.0;
    bestMprime := m;
    var currentBound := 1.0;
    n := 0;
    while bestBound >= currentBound && mprime <= max
      invariant mprime == CatoniMprime(m, n + 1)
      invariant CatoniMprime(m, n) <= max
      invariant bestBound == CatoniBoundAt(bound, m, CatoniBestStep(bound, m, n))
      invariant currentBound == CatoniBoundAt(bound, m, n)
      invariant forall s :: 1 <= s < n ==> Continued(bound, m, s)
      invariant bestBound < 1.0 ==> bestMprime == CatoniMprime(m, CatoniBestStep(bound, m, n))
      invariant bestBound == 1.0 ==> bestMprime == m
      decreases max - mprime
    {
      if n >= 1 {
        ContinuedIffGuard(bound, m, n);
      }
      currentBound := bound(mprime);
      assert currentBound == CatoniBoundAt(bound, m, n + 1);
      if currentBound < bestBound {
        bestBound := currentBound;
        bestMprime := mprime;
      }
      mprime := mprime + m;
      n := n + 1;
    }
    CatoniLoopExit(bound, m, max, n);
  }
}
