/** Exact binomial coefficients, with the convention of scipy's `comb(n, r, exact=True)`:
    the coefficient is zero whenever `r < 0`, `r > n` or `n < 0`. In particular C(-1, 0) is 0,
    which is why Berkopec's terms special-case the one place where the formula needs C(-1, 0) = 1. */
module Binomial {

  /** C(n, r), built by Pascal's rule. It is positive exactly on the triangle 0 <= r <= n. */
  function Binom(n: int, r: int): (c: nat)
    ensures c > 0 <==> 0 <= r <= n
    decreases n
  {
    if n < 0 || r < 0 || r > n then 0
    else if r == 0 || r == n then 1
    else Binom(n - 1, r - 1) + Binom(n - 1, r)
  }

  /** Pascal's rule holds for every r once n >= 1 (at n = 0 it fails under scipy's convention,
      since C(0, 0) = 1 but C(-1, -1) + C(-1, 0) = 0). */
  lemma Pascal(n: int, r: int)
    requires n >= 1
    ensures Binom(n, r) == Binom(n - 1, r - 1) + Binom(n - 1, r)
  {
  }

  /** Row symmetry C(n, r) = C(n, n - r) for n >= 0. */
  lemma {:induction false} Symmetry(n: int, r: int)
    requires n >= 0
    ensures Binom(n, r) == Binom(n, n - r)
    decreases n
  {
    if 0 < r < n {
      Symmetry(n - 1, r - 1);
      Symmetry(n - 1, r);
      assert Binom(n - 1, r - 1) == Binom(n - 1, n - r);
      assert Binom(n - 1, r) == Binom(n - 1, n - 1 - r);
    }
  }
}
