/** Finite discrete distributions over a support of candidate defect counts:
    sums, normalisation of nonnegative weights, and expectations. */
module Distributions {

  /** The sum of a sequence of reals (numpy's np.sum on a one-dimensional array). */
  function Sum(s: seq<real>): real
  {
    if |s| == 0 then 0.0 else s[0] + Sum(s[1..])
  }

  predicate NonNegative(s: seq<real>)
  {
    forall i :: 0 <= i < |s| ==> s[i] >= 0.0
  }

  predicate Positive(s: seq<real>)
  {
    forall i :: 0 <= i < |s| ==> s[i] > 0.0
  }

  /** A probability distribution: nonnegative entries that add up to exactly one. */
  predicate IsDistribution(s: seq<real>)
  {
    NonNegative(s) && Sum(s) == 1.0
  }

  lemma {:induction false} SumNonNegative(s: seq<real>)
    requires NonNegative(s)
    ensures Sum(s) >= 0.0
  {
    if |s| > 0 {
      SumNonNegative(s[1..]);
    }
  }

  /** Nonnegative weights with one positive entry have a positive sum. */
  lemma {:induction false} SumPositive(s: seq<real>, j: int)
    requires NonNegative(s) && 0 <= j < |s| && s[j] > 0.0
    ensures Sum(s) > 0.0
  {
    if j == 0 {
      SumNonNegative(s[1..]);
    } else {
      SumPositive(s[1..], j - 1);
    }
  }

  /** Nonnegative weights sum to zero exactly when every weight is zero. */
  lemma {:induction false} SumZeroIffAllZero(s: seq<real>)
    requires NonNegative(s)
    ensures Sum(s) == 0.0 <==> forall i :: 0 <= i < |s| ==> s[i] == 0.0
  {
    if Sum(s) == 0.0 {
      forall i | 0 <= i < |s|
        ensures s[i] == 0.0
      {
        if s[i] != 0.0 {
          SumPositive(s, i);
        }
      }
    } else {
      AllZeroSum(s);
    }
  }

  lemma {:induction false} AllZeroSum(s: seq<real>)
    ensures (forall i :: 0 <= i < |s| ==> s[i] == 0.0) ==> Sum(s) == 0.0
  {
    if |s| > 0 {
      AllZeroSum(s[1..]);
    }
  }

  /** Dividing every entry by t divides the sum by t. */
  lemma {:induction false} SumDivided(s: seq<real>, t: real)
    requires t != 0.0
    ensures Sum(seq(|s|, i requires 0 <= i < |s| => s[i] / t)) == Sum(s) / t
  {
    var d := seq(|s|, i requires 0 <= i < |s| => s[i] / t);
    if |s| > 0 {
      var tail := s[1..];
      assert d[1..] == seq(|tail|, i requires 0 <= i < |tail| => tail[i] / t);
      SumDivided(tail, t);
    }
  }

  /** Multiplying every entry by k multiplies the sum by k. */
  lemma {:induction false} SumScaled(s: seq<real>, k: real)
    ensures Sum(Scaled(s, k)) == k * Sum(s)
  {
    var d := Scaled(s, k);
    if |s| > 0 {
      var tail := s[1..];
      var e := seq(|tail|, i requires 0 <= i < |tail| => k * tail[i]);
      assert |d[1..]| == |e|;
      forall i | 0 <= i < |tail|
        ensures d[1..][i] == e[i]
      {
        assert d[1..][i] == d[i + 1] == k * s[i + 1];
      }
      assert d[1..] == e;
      SumScaled(tail, k);
    }
  }

  /** A constant sequence of length k with value v sums to k * v. */
  lemma {:induction false} SumConstant(s: seq<real>, v: real)
    requires forall i :: 0 <= i < |s| ==> s[i] == v
    ensures Sum(s) == |s| as real * v
  {
    if |s| > 0 {
      SumConstant(s[1..], v);
    }
  }

  lemma {:induction false} SumAppend(a: seq<real>, b: seq<real>)
    ensures Sum(a + b) == Sum(a) + Sum(b)
  {
    if |a| == 0 {
      assert a + b == b;
    } else {
      assert (a + b)[1..] == a[1..] + b;
      SumAppend(a[1..], b);
    }
  }

  /** Weights divided by their total: entry i is w[i]'s share of the total. */
  function Normalize(w: seq<real>): (r: seq<real>)
    requires Sum(w) != 0.0
    ensures |r| == |w|
    ensures forall i :: 0 <= i < |w| ==> r[i] == w[i] / Sum(w)
  {
    var total := Sum(w);
    seq(|w|, i requires 0 <= i < |w| => w[i] / total)
  }

  /** Nonnegative weights with a nonzero total normalise to a probability distribution. */
  lemma {:induction false} NormalizeIsDistribution(w: seq<real>)
    requires NonNegative(w) && Sum(w) != 0.0
    ensures IsDistribution(Normalize(w))
  {
    var total := Sum(w);
    SumDivided(w, total);
    assert Normalize(w) == seq(|w|, i requires 0 <= i < |w| => w[i] / total);
    DivSelf(total);
    SumNonNegative(w);
    forall i | 0 <= i < |w|
      ensures Normalize(w)[i] >= 0.0
    {
      DivNonNegative(w[i], total);
    }
  }

  /** r is in the ratio of w: entry i is to entry j as w[i] is to w[j]. */
  predicate Proportional(r: seq<real>, w: seq<real>)
  {
    |r| == |w| && forall i, j :: 0 <= i < |w| && 0 <= j < |w| ==> r[i] * w[j] == r[j] * w[i]
  }

  /** Normalised weights keep the ratios of the weights. */
  lemma {:induction false} NormalizeProportional(w: seq<real>)
    requires Sum(w) != 0.0
    ensures Proportional(Normalize(w), w)
  {
    forall i, j | 0 <= i < |w| && 0 <= j < |w|
      ensures Normalize(w)[i] * w[j] == Normalize(w)[j] * w[i]
    {
      DivRatio(w[i], w[j], Sum(w));
    }
  }

  /** r and w have the same length and are positive at the same indices. */
  predicate SameSupport(r: seq<real>, w: seq<real>)
  {
    |r| == |w| && forall i :: 0 <= i < |w| ==> (r[i] > 0.0 <==> w[i] > 0.0)
  }

  lemma {:induction false} SameSupportTransitive(a: seq<real>, b: seq<real>, c: seq<real>)
    requires SameSupport(a, b) && SameSupport(b, c)
    ensures SameSupport(a, c)
  {
    assert forall i :: 0 <= i < |c| ==> (a[i] > 0.0 <==> b[i] > 0.0);
  }

  /** With nonnegative weights, a normalised entry is positive exactly where its weight is. */
  lemma {:induction false} NormalizePositiveWhere(w: seq<real>)
    requires NonNegative(w) && Sum(w) != 0.0
    ensures SameSupport(Normalize(w), w)
  {
    SumNonNegative(w);
    forall i | 0 <= i < |w|
      ensures Normalize(w)[i] > 0.0 <==> w[i] > 0.0
    {
      DivPositive(w[i], Sum(w));
    }
  }

  /** Every weight multiplied by k. */
  function Scaled(w: seq<real>, k: real): (r: seq<real>)
    ensures |r| == |w| && forall i :: 0 <= i < |w| ==> r[i] == k * w[i]
  {
    seq(|w|, i requires 0 <= i < |w| => k * w[i])
  }

  /** Normalisation forgets a positive common factor of the weights. */
  lemma {:induction false} NormalizeScaleInvariant(w: seq<real>, k: real)
    requires k > 0.0 && Sum(w) != 0.0
    ensures Sum(Scaled(w, k)) != 0.0
    ensures Normalize(Scaled(w, k)) == Normalize(w)
  {
    SumScaled(w, k);
    ProductNonZero(k, Sum(w));
    forall i | 0 <= i < |w|
      ensures Normalize(Scaled(w, k))[i] == Normalize(w)[i]
    {
      ScaleInvariantAt(w, k, i);
    }
  }

  lemma {:induction false} ScaleInvariantAt(w: seq<real>, k: real, i: int)
    requires k > 0.0 && Sum(w) != 0.0 && 0 <= i < |w|
    requires Sum(Scaled(w, k)) == k * Sum(w)
    ensures Sum(Scaled(w, k)) != 0.0
    ensures Normalize(Scaled(w, k))[i] == Normalize(w)[i]
  {
    ProductNonZero(k, Sum(w));
    assert Scaled(w, k)[i] == k * w[i];
    DivCancel(k, w[i], Sum(w), Scaled(w, k)[i], Sum(Scaled(w, k)));
  }

  // Scalar facts, kept apart so that each proof sees only a few arithmetic terms.

  /** A part strictly between nothing and the whole is a share strictly inside the unit interval. */
  lemma {:induction false} RatioInUnit(x: real, t: real)
    requires 0.0 < x < t
    ensures 0.0 < x / t < 1.0
  {
    var p := x / t;
    assert p * t == x;
    assert p <= 0.0 ==> p * t <= 0.0;
    assert p >= 1.0 ==> p * t >= t;
  }

  /** The share of t that is not a's. */
  lemma {:induction false} Complement(a: real, t: real)
    requires t != 0.0
    ensures (t - a) / t == 1.0 - a / t
  {
    var u := 1.0 / t;
    assert t * u == 1.0;
    assert (t - a) / t == (t - a) * u;
    assert a / t == a * u;
  }

  lemma {:induction false} DivSelf(t: real)
    requires t != 0.0
    ensures t / t == 1.0
  {
  }

  lemma {:induction false} DivNonNegative(x: real, t: real)
    requires x >= 0.0 && t > 0.0
    ensures x / t >= 0.0
  {
  }

  lemma {:induction false} DivPositive(x: real, t: real)
    requires x >= 0.0 && t > 0.0
    ensures x / t > 0.0 <==> x > 0.0
  {
  }

  lemma {:induction false} DivRatio(a: real, b: real, t: real)
    requires t != 0.0
    ensures (a / t) * b == (b / t) * a
  {
  }

  lemma {:induction false} DivCancel(k: real, x: real, t: real, kx: real, kt: real)
    requires k != 0.0 && t != 0.0 && kx == k * x && kt == k * t
    ensures kx / kt == x / t
  {
  }

  lemma {:induction false} ProductNonZero(a: real, b: real)
    requires a != 0.0 && b != 0.0
    ensures a * b != 0.0
  {
  }

  /** Normalisation commutes with padding the weights by a zero at each end. */
  lemma {:induction false} NormalizePadded(w: seq<real>)
    requires Sum(w) != 0.0
    ensures Sum([0.0] + w + [0.0]) == Sum(w)
    ensures Normalize([0.0] + w + [0.0]) == [0.0] + Normalize(w) + [0.0]
  {
    SumAppend([0.0] + w, [0.0]);
    SumAppend([0.0], w);
    assert Sum([0.0]) == 0.0;
    var a := Normalize([0.0] + w + [0.0]);
    var b := [0.0] + Normalize(w) + [0.0];
    assert |a| == |b|;
    forall i | 0 <= i < |a|
      ensures a[i] == b[i]
    {
      if 0 < i < |w| + 1 {
        assert ([0.0] + w + [0.0])[i] == w[i - 1];
      }
    }
  }

  /** Likelihood times prior, elementwise: the unnormalised posterior. */
  function Weights(likelihoods: seq<real>, prior: seq<real>): (r: seq<real>)
    requires |likelihoods| == |prior|
    ensures |r| == |prior|
    ensures NonNegative(likelihoods) && Positive(prior) ==> NonNegative(r) && SameSupport(r, likelihoods)
  {
    var r := seq(|prior|, i requires 0 <= i < |prior| => likelihoods[i] * prior[i]);
    if NonNegative(likelihoods) && Positive(prior) then
      assert forall i :: 0 <= i < |r| ==> r[i] >= 0.0 && (r[i] > 0.0 <==> likelihoods[i] > 0.0) by {
        forall i | 0 <= i < |r|
          ensures r[i] >= 0.0 && (r[i] > 0.0 <==> likelihoods[i] > 0.0)
        {
          ProductSign(likelihoods[i], prior[i]);
        }
      }
      r
    else
      r
  }

  lemma {:induction false} ProductSign(l: real, p: real)
    requires l >= 0.0 && p > 0.0
    ensures l * p >= 0.0 && (l * p > 0.0 <==> l > 0.0)
  {
  }

  /** The expectation of cost(M) when the candidate Ms[i] has probability dist[i]:
      the sum over the support of cost(M) times its probability. */
  function Expectation(Ms: seq<int>, dist: seq<real>, cost: int -> real): real
    requires |Ms| == |dist|
  {
    if |Ms| == 0 then 0.0 else cost(Ms[0]) * dist[0] + Expectation(Ms[1..], dist[1..], cost)
  }

  /** Lower bound: every cost at least lo gives an expectation at least lo times the total mass. */
  lemma {:induction false} ExpectationAtLeast(Ms: seq<int>, dist: seq<real>, cost: int -> real, lo: real)
    requires |Ms| == |dist| && NonNegative(dist)
    requires forall i :: 0 <= i < |Ms| ==> cost(Ms[i]) >= lo
    ensures Expectation(Ms, dist, cost) >= lo * Sum(dist)
  {
    if |Ms| > 0 {
      ExpectationAtLeast(Ms[1..], dist[1..], cost, lo);
      assert (cost(Ms[0]) - lo) * dist[0] >= 0.0;
    }
  }

  /** Upper bound: every cost at most hi gives an expectation at most hi times the total mass. */
  lemma {:induction false} ExpectationAtMost(Ms: seq<int>, dist: seq<real>, cost: int -> real, hi: real)
    requires |Ms| == |dist| && NonNegative(dist)
    requires forall i :: 0 <= i < |Ms| ==> cost(Ms[i]) <= hi
    ensures Expectation(Ms, dist, cost) <= hi * Sum(dist)
  {
    if |Ms| > 0 {
      ExpectationAtMost(Ms[1..], dist[1..], cost, hi);
      assert (hi - cost(Ms[0])) * dist[0] >= 0.0;
    }
  }

  /** Under a probability distribution the expectation lies between the smallest and largest cost. */
  lemma {:induction false} ExpectationBetween(Ms: seq<int>, dist: seq<real>, cost: int -> real, lo: real, hi: real)
    requires |Ms| == |dist| && IsDistribution(dist)
    requires forall i :: 0 <= i < |Ms| ==> lo <= cost(Ms[i]) <= hi
    ensures lo <= Expectation(Ms, dist, cost) <= hi
  {
    ExpectationAtLeast(Ms, dist, cost, lo);
    ExpectationAtMost(Ms, dist, cost, hi);
  }

  /** Adding a constant k to the cost adds k times the total mass to the expectation. */
  lemma {:induction false} ExpectationShift(Ms: seq<int>, dist: seq<real>, cost: int -> real, shifted: int -> real, k: real)
    requires |Ms| == |dist|
    requires forall i :: 0 <= i < |Ms| ==> shifted(Ms[i]) == cost(Ms[i]) + k
    ensures Expectation(Ms, dist, shifted) == Expectation(Ms, dist, cost) + k * Sum(dist)
  {
    if |Ms| > 0 {
      ExpectationShift(Ms[1..], dist[1..], cost, shifted, k);
    }
  }

  /** Costs that agree on the support have the same expectation. */
  lemma {:induction false} ExpectationCongruent(Ms: seq<int>, dist: seq<real>, f: int -> real, g: int -> real)
    requires |Ms| == |dist|
    requires forall i :: 0 <= i < |Ms| ==> f(Ms[i]) == g(Ms[i])
    ensures Expectation(Ms, dist, f) == Expectation(Ms, dist, g)
  {
    if |Ms| > 0 {
      ExpectationCongruent(Ms[1..], dist[1..], f, g);
    }
  }

  /** Support points of probability zero, added at either end, do not change the expectation. */
  lemma {:induction false} ExpectationPadded(Ms: seq<int>, dist: seq<real>, cost: int -> real, first: int, last: int)
    requires |Ms| == |dist|
    ensures Expectation([first] + Ms + [last], [0.0] + dist + [0.0], cost) == Expectation(Ms, dist, cost)
  {
    var ms := [first] + Ms + [last];
    var ds := [0.0] + dist + [0.0];
    assert ms[1..] == Ms + [last];
    assert ds[1..] == dist + [0.0];
    ExpectationAppendZero(Ms, dist, cost, last);
  }

  lemma {:induction false} ExpectationAppendZero(Ms: seq<int>, dist: seq<real>, cost: int -> real, last: int)
    requires |Ms| == |dist|
    ensures Expectation(Ms + [last], dist + [0.0], cost) == Expectation(Ms, dist, cost)
  {
    if |Ms| == 0 {
      assert Ms + [last] == [last];
      assert dist + [0.0] == [0.0];
    } else {
      assert (Ms + [last])[1..] == Ms[1..] + [last];
      assert (dist + [0.0])[1..] == dist[1..] + [0.0];
      ExpectationAppendZero(Ms[1..], dist[1..], cost, last);
    }
  }

  /** A point mass at index j makes the expectation the cost of Ms[j]. */
  lemma {:induction false} ExpectationPointMass(Ms: seq<int>, dist: seq<real>, cost: int -> real, j: int)
    requires |Ms| == |dist| && 0 <= j < |Ms|
    requires dist[j] == 1.0 && forall i :: 0 <= i < |Ms| && i != j ==> dist[i] == 0.0
    ensures Expectation(Ms, dist, cost) == cost(Ms[j])
  {
    if j == 0 {
      ExpectationOfZero(Ms[1..], dist[1..], cost);
    } else {
      ExpectationPointMass(Ms[1..], dist[1..], cost, j - 1);
    }
  }

  lemma {:induction false} ExpectationOfZero(Ms: seq<int>, dist: seq<real>, cost: int -> real)
    requires |Ms| == |dist| && forall i :: 0 <= i < |Ms| ==> dist[i] == 0.0
    ensures Expectation(Ms, dist, cost) == 0.0
  {
    if |Ms| > 0 {
      ExpectationOfZero(Ms[1..], dist[1..], cost);
    }
  }
}
