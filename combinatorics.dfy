/** Integer combinatorics used by the likelihood models. */
module Combinatorics {

  /** The binomial coefficient "n choose k", with the convention of scipy.special.comb:
      it is zero whenever k is negative or larger than n (in particular whenever n < 0). */
  function Comb(n: int, k: int): (r: nat)
    ensures r > 0 <==> 0 <= k <= n
    decreases n
  {
    if k < 0 || k > n then 0
    else if k == 0 || k == n then 1
    else Comb(n - 1, k - 1) + Comb(n - 1, k)
  }

  /** Pascal's rule holds for every k, thanks to the zero convention outside 0..n. */
  lemma {:induction false} Pascal(n: int, k: int)
    requires n >= 0
    ensures Comb(n + 1, k) == Comb(n, k - 1) + Comb(n, k)
  {
  }

  /** The first k terms of the convolution: the sum over m = 0..k-1 of C(a, m) * C(b, n - m),
      the number of ways to choose n items from a + b when m of them come from the first a. */
  function Convolution(a: int, b: int, n: int, k: int): nat
    decreases k
  {
    if k <= 0 then 0 else Convolution(a, b, n, k - 1) + Comb(a, k - 1) * Comb(b, n - (k - 1))
  }

  /** One more item in the first group splits every term by Pascal's rule. */
  lemma {:induction false} ConvolutionStep(a: int, b: int, n: int, k: int)
    requires a >= 0
    ensures Convolution(a + 1, b, n, k) == Convolution(a, b, n - 1, k - 1) + Convolution(a, b, n, k)
    decreases k
  {
    if k > 0 {
      ConvolutionStep(a, b, n, k - 1);
      Pascal(a, k - 1);
      assert (n - 1) - (k - 2) == n - (k - 1);
      Distribute(Comb(a + 1, k - 1), Comb(a, k - 2), Comb(a, k - 1), Comb(b, n - (k - 1)));
    }
  }

  lemma {:induction false} Distribute(p: int, q: int, r: int, x: int)
    requires p == q + r
    ensures p * x == q * x + r * x
  {
  }

  /** With an empty first group only the term m = 0 remains. */
  lemma {:induction false} ConvolutionOfNone(b: int, n: int, k: int)
    requires k >= 1
    ensures Convolution(0, b, n, k) == Comb(b, n)
    decreases k
  {
    if k > 1 {
      ConvolutionOfNone(b, n, k - 1);
    }
  }

  /** Vandermonde's identity: choosing n of a + b items, split by how many come from the
      first a, counts every choice once. */
  lemma {:induction false} Vandermonde(a: int, b: int, n: int)
    requires a >= 0 && b >= 0
    ensures Convolution(a, b, n, n + 1) == Comb(a + b, n)
    decreases a
  {
    if n < 0 {
    } else if a == 0 {
      ConvolutionOfNone(b, n, n + 1);
    } else {
      Vandermonde(a - 1, b, n - 1);
      Vandermonde(a - 1, b, n);
      ConvolutionStep(a - 1, b, n, n + 1);
      Pascal(a - 1 + b, n);
    }
  }

  /** x raised to a natural power. */
  function Pow(x: real, k: nat): (r: real)
    ensures x > 0.0 ==> r > 0.0
    ensures x >= 0.0 ==> r >= 0.0
    ensures k == 0 ==> r == 1.0
  {
    if k == 0 then 1.0 else x * Pow(x, k - 1)
  }
}
