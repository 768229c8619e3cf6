/** The sampling models shared by both front ends: the hypergeometric and binomial
    likelihoods of observing m defectives in a sample of n drawn from a lot of N that
    holds M defectives, and the Jeffreys density for the defect proportion. */
module Sampling {
  import opened Combinatorics

  /** P(m defectives in the sample | M in the lot), sampling without replacement:
      C(M, m) * C(N - M, n - m) / C(N, n). The divisor C(N, n) is positive exactly when
      0 <= n <= N, which is what the precondition asks. */
  function Hypergeometric(M: int, m: int, N: int, n: int): (r: real)
    requires 0 <= n <= N
    ensures r >= 0.0
    ensures r == 0.0 <==> m < 0 || m > M || n - m < 0 || n - m > N - M
  {
    (Comb(M, m) * Comb(N - M, n - m)) as real / Comb(N, n) as real
  }

  /** The hypergeometric probabilities of m = 0..k-1 defectives in the sample, summed. */
  function HypergeometricMass(M: int, N: int, n: int, k: int): real
    requires 0 <= n <= N
    decreases k
  {
    if k <= 0 then 0.0 else HypergeometricMass(M, N, n, k - 1) + Hypergeometric(M, k - 1, N, n)
  }

  /** The partial mass is the partial convolution over the common divisor C(N, n). */
  lemma {:induction false} HypergeometricMassCounts(M: int, N: int, n: int, k: int)
    requires 0 <= n <= N
    ensures HypergeometricMass(M, N, n, k) == Convolution(M, N - M, n, k) as real / Comb(N, n) as real
    decreases k
  {
    if k > 0 {
      HypergeometricMassCounts(M, N, n, k - 1);
      var x, y := Convolution(M, N - M, n, k - 1), Comb(M, k - 1) * Comb(N - M, n - (k - 1));
      assert Convolution(M, N - M, n, k) == x + y;
      SharedDivisor(x, y, Comb(N, n));
    }
  }

  lemma {:induction false} SharedDivisor(x: nat, y: nat, c: nat)
    requires c > 0
    ensures (x + y) as real / c as real == x as real / c as real + y as real / c as real
  {
    var u := 1.0 / c as real;
    assert (x + y) as real == x as real + y as real;
    assert (x + y) as real / c as real == (x as real + y as real) * u;
    assert x as real / c as real == x as real * u && y as real / c as real == y as real * u;
  }

  /** For a lot that holds 0 <= M <= N defectives and a sample of 0 <= n <= N items, the
      probabilities of seeing m = 0, 1, ..., n defectives add up to exactly 1. */
  lemma {:induction false} HypergeometricSumsToOne(M: int, N: int, n: int)
    requires 0 <= M <= N && 0 <= n <= N
    ensures HypergeometricMass(M, N, n, n + 1) == 1.0
  {
    HypergeometricMassCounts(M, N, n, n + 1);
    Vandermonde(M, N - M, n);
    var total := N - M;
    assert M + total == N;
    WholeShare(Convolution(M, total, n, n + 1), Comb(N, n));
  }

  lemma {:induction false} WholeShare(x: nat, c: nat)
    requires x == c && c > 0
    ensures x as real / c as real == 1.0
  {
  }

  /** P(m defectives in the sample | M in the lot), sampling with replacement at the
      defect rate p = M / N: C(n, m) * p^m * (1 - p)^(n - m). For m outside 0..n the
      coefficient C(n, m) is zero and so is the probability. */
  function Binomial(M: int, m: int, N: int, n: int): (r: real)
    requires N != 0
    ensures 0 <= M <= N && N > 0 ==> r >= 0.0
    ensures 0 < M < N ==> (r > 0.0 <==> 0 <= m <= n)
  {
    var p := M as real / N as real;
    if m < 0 || m > n then 0.0
    else
      var c, a, b := Comb(n, m) as real, Pow(p, m), Pow(1.0 - p, n - m);
      DefectRate(M, N);
      assert 0 <= M <= N && N > 0 ==> c * a >= 0.0 && (c * a) * b >= 0.0;
      assert 0 < M < N ==> c * a > 0.0 && (c * a) * b > 0.0;
      c * a * b
  }

  /** The defect rate M / N of a lot lies in the unit interval, strictly inside it when 0 < M < N. */
  lemma {:induction false} DefectRate(M: int, N: int)
    requires N != 0
    ensures 0 <= M <= N && N > 0 ==> 0.0 <= M as real / N as real <= 1.0
    ensures 0 < M < N ==> 0.0 < M as real / N as real < 1.0
  {
    if 0 <= M <= N && N > 0 {
      assert M as real / N as real * N as real == M as real;
    }
  }

  /** f is the power x^(-1/2) on the open unit interval: positive, and its square is 1 / x.
      numpy's floating-point power is not modelled; every property below holds for any
      such f. */
  ghost predicate IsInvSqrt(f: real -> real)
  {
    forall x {:trigger InUnitInterval(x)} :: InUnitInterval(x) ==> f(x) > 0.0 && x * f(x) * f(x) == 1.0
  }

  /** 0 < x < 1. */
  ghost predicate InUnitInterval(x: real)
  {
    0.0 < x < 1.0
  }

  /** The Jeffreys density of a binomial proportion, p^(-1/2) * (1 - p)^(-1/2). */
  function JeffreysDensity(p: real, invSqrt: real -> real): real
  {
    invSqrt(p) * invSqrt(1.0 - p)
  }

  /** Inside the unit interval the density is positive, its square is 1 / (p (1 - p)),
      and it is symmetric under p -> 1 - p. */
  lemma {:induction false} JeffreysDensityFacts(p: real, invSqrt: real -> real)
    requires IsInvSqrt(invSqrt) && 0.0 < p < 1.0
    ensures JeffreysDensity(p, invSqrt) > 0.0
    ensures p * (1.0 - p) * JeffreysDensity(p, invSqrt) * JeffreysDensity(p, invSqrt) == 1.0
    ensures JeffreysDensity(1.0 - p, invSqrt) == JeffreysDensity(p, invSqrt)
  {
    var a, b := invSqrt(p), invSqrt(1.0 - p);
    assert InUnitInterval(p) && InUnitInterval(1.0 - p);
    assert 1.0 - (1.0 - p) == p;
    assert p * a * a == 1.0;
    assert (1.0 - p) * b * b == 1.0;
    assert p * (1.0 - p) * (a * b) * (a * b) == (p * a * a) * ((1.0 - p) * b * b);
  }
}
