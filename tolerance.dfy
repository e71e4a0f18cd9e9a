/** The relative-tolerance comparisons of the two `utils/utils.py` files (they are identical).
    `CloseTo` is numpy's `isclose` test: the allowed error scales with |b| only. */
module Tolerance {

  /** The default relative tolerance 10e-16 of both helpers. */
  const DefaultRtol: real := 0.000000000000001

  function Abs(x: real): (y: real)
    ensures y >= 0.0 && (y == x || y == -x)
  {
    if x < 0.0 then -x else x
  }

  /** |a - b| <= atol + rtol * |b|: a lies in the band of half-width atol + rtol * |b| around b. */
  predicate CloseTo(a: real, b: real, atol: real := 0.0, rtol: real := DefaultRtol): (r: bool)
    ensures r <==> b - (atol + rtol * Abs(b)) <= a <= b + (atol + rtol * Abs(b))
  {
    Abs(a - b) <= atol + rtol * Abs(b)
  }

  /** a <= b, or a is within tolerance of b: anything below b passes, and a value above b passes
      when it is within tolerance of b. */
  predicate CloseToOrLessThan(a: real, b: real, atol: real := 0.0, rtol: real := DefaultRtol): (r: bool)
    ensures a <= b ==> r
    ensures a > b ==> (r <==> a - b <= atol + rtol * Abs(b))
  {
    a <= b || CloseTo(a, b, atol, rtol)
  }

  /** With non-negative tolerances every value is close to itself. */
  lemma CloseToReflexive(a: real, atol: real, rtol: real)
    requires atol >= 0.0 && rtol >= 0.0
    ensures CloseTo(a, a, atol, rtol)
  {
    assert Abs(a - a) == 0.0;
    assert rtol * Abs(a) >= 0.0;
  }

  /** With both tolerances zero, closeness is equality. */
  lemma CloseToExactIsEquality(a: real, b: real)
    ensures CloseTo(a, b, 0.0, 0.0) <==> a == b
  {
  }

  /** The tolerance is measured against |b| only, so the test is not symmetric:
      0 is within 100% of 1, but 1 is not within 100% of 0. */
  lemma CloseToIsNotSymmetric()
    ensures CloseTo(0.0, 1.0, 0.0, 1.0) && !CloseTo(1.0, 0.0, 0.0, 1.0)
  {
  }

  /** Whenever the tolerance is non-negative, "close to or less than" is the single threshold
      test a <= b + atol + rtol * |b|; in particular, when it fails a exceeds that threshold. */
  lemma CloseToOrLessThanIsThreshold(a: real, b: real, atol: real, rtol: real)
    requires atol + rtol * Abs(b) >= 0.0
    ensures CloseToOrLessThan(a, b, atol, rtol) <==> a <= b + atol + rtol * Abs(b)
  {
  }

  /** Anything below b passes, whatever the tolerances. */
  lemma LessThanIsCloseToOrLessThan(a: real, b: real, atol: real, rtol: real)
    requires a <= b
    ensures CloseToOrLessThan(a, b, atol, rtol)
  {
  }

  /** The test is downward closed in its first argument for non-negative tolerances:
      a value below one that passes also passes. */
  lemma CloseToOrLessThanDownward(a: real, a': real, b: real, atol: real, rtol: real)
    requires atol >= 0.0 && rtol >= 0.0
    requires a' <= a && CloseToOrLessThan(a, b, atol, rtol)
    ensures CloseToOrLessThan(a', b, atol, rtol)
  {
    CloseToOrLessThanIsThreshold(a, b, atol, rtol);
    CloseToOrLessThanIsThreshold(a', b, atol, rtol);
  }
}
