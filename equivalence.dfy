/** How the two front ends relate. With the Jeffreys prior and the hypergeometric likelihood,
    the command-line tool's support 0..N only adds the two ends M = 0 and M = N, which carry no
    posterior mass once 1 <= m <= n - 1 defectives are seen; its clip by 1e-10 touches nothing
    else; and its improved cost set is the realistic one with no opportunity cost and no
    overhead. So both tools compute the same expected costs and report the same threshold. */
module SupportEquivalence {
  import opened Distributions
  import opened Sampling
  import B = BayesianQC
  import S = ImprovedScript

  /** The improved cost set as a realistic one: O = 0 and F = 0. */
  function AsRealistic(costs: S.Costs): B.Costs
  {
    B.Costs(costs.itemCost, 0.0, costs.penalty, costs.revenue, 0.0, costs.inspectionCost, costs.delayCost)
  }

  /** On any support and posterior, the improved costs are the realistic costs with O = F = 0. */
  lemma {:induction false} CostsAgree(Ms: seq<int>, posterior: seq<real>, costs: S.Costs, N: int)
    requires |Ms| == |posterior|
    ensures S.ImprovedExpectedCostAccept(Ms, posterior, costs, N) == B.RealisticExpectedCostAccept(Ms, posterior, AsRealistic(costs), N)
    ensures S.ImprovedExpectedCostReject(costs, N) == B.RealisticExpectedCostReject(AsRealistic(costs), N)
  {
    var f, g := M => S.ImprovedLoss(costs, N, M), M => B.AcceptLoss(AsRealistic(costs), N, M);
    forall i | 0 <= i < |Ms|
      ensures f(Ms[i]) == g(Ms[i])
    {
      LossAgrees(costs, N, Ms[i]);
    }
    ExpectationCongruent(Ms, posterior, f, g);
  }

  /** Pointwise: the improved loss is the realistic loss with O = F = 0. */
  lemma {:induction false} LossAgrees(costs: S.Costs, N: int, M: int)
    ensures S.ImprovedLoss(costs, N, M) == B.AcceptLoss(AsRealistic(costs), N, M)
  {
    var r := AsRealistic(costs);
    assert r.itemCost == costs.itemCost && r.opportunityCost == 0.0 && r.fixedCost == 0.0;
    assert r.penalty == costs.penalty && r.revenue == costs.revenue;
  }

  /** 0..N is 1..N-1 with both ends added. */
  lemma {:induction false} SupportPadded(N: int)
    requires N >= 2
    ensures S.Support(N) == [0] + B.Support(N) + [N]
  {
    var a, b := S.Support(N), [0] + B.Support(N) + [N];
    assert |a| == |b|;
    forall i | 0 <= i < |a|
      ensures a[i] == b[i]
    {
      if 0 < i < N {
        assert b[i] == B.Support(N)[i - 1];
      }
    }
  }

  /** Inside the ends the two Jeffreys weights coincide: neither clip moves 1..N-1. */
  lemma {:induction false} JeffreysShift(N: int, invSqrt: real -> real, i: int)
    requires N >= 2 && IsInvSqrt(invSqrt) && 0 <= i < N - 1
    ensures S.JeffreysWeights(S.Support(N), N, invSqrt)[i + 1] == B.JeffreysWeights(B.Support(N), N, invSqrt)[i]
  {
    S.ClippedRate(i + 1, N);
  }

  /** The two priors on 1..N-1 differ only by the ratio of their totals. */
  lemma {:induction false} PriorShift(N: int, invSqrt: real -> real, i: int)
    requires N >= 2 && IsInvSqrt(invSqrt) && 0 <= i < N - 1
    ensures var js, jb := S.JeffreysWeights(S.Support(N), N, invSqrt), B.JeffreysWeights(B.Support(N), N, invSqrt);
      Sum(js) > 0.0 && Sum(jb) > 0.0 &&
      S.PriorOf(N, invSqrt)[i + 1] == jb[i] / Sum(js) &&
      B.PriorOf(N, B.JEFFREYS, invSqrt)[i] == jb[i] / Sum(jb)
  {
    var js, jb := S.JeffreysWeights(S.Support(N), N, invSqrt), B.JeffreysWeights(B.Support(N), N, invSqrt);
    SumPositive(js, 0);
    SumPositive(jb, 0);
    JeffreysShift(N, invSqrt, i);
  }

  /** Rescaling a share from one total to another. */
  lemma {:induction false} Rescale(l: real, j: real, ss: real, sb: real)
    requires ss > 0.0 && sb > 0.0
    ensures l * (j / ss) == (sb / ss) * (l * (j / sb))
  {
    var us, ub := 1.0 / ss, 1.0 / sb;
    assert j / ss == j * us && j / sb == j * ub && sb / ss == sb * us;
    assert sb * ub == 1.0;
    assert (sb * us) * (l * (j * ub)) == l * j * us * (sb * ub);
  }

  /** The engine's Jeffreys total over the script's: the factor between their priors on 1..N-1. */
  function JeffreysRatio(N: int, invSqrt: real -> real): (r: real)
    requires N >= 2 && IsInvSqrt(invSqrt)
    ensures r > 0.0
  {
    var js, jb := S.JeffreysWeights(S.Support(N), N, invSqrt), B.JeffreysWeights(B.Support(N), N, invSqrt);
    SumPositive(js, 0);
    SumPositive(jb, 0);
    Sum(jb) / Sum(js)
  }

  /** A weight whose prior share is taken over the total ss instead of sb is rescaled by
      k = sb / ss. */
  lemma {:induction false} WeightRescaled(ls: seq<real>, ps: seq<real>, lb: seq<real>, pb: seq<real>, i: int, j: int, x: real, ss: real, sb: real, k: real)
    requires |ls| == |ps| && |lb| == |pb| && 0 <= i < |ls| && 0 <= j < |lb| && ss > 0.0 && sb > 0.0
    requires ls[i] == lb[j] && ps[i] == x / ss && pb[j] == x / sb && k == sb / ss
    ensures j < |Scaled(Weights(lb, pb), k)| && Weights(ls, ps)[i] == Scaled(Weights(lb, pb), k)[j]
  {
    Rescale(ls[i], x, ss, sb);
  }

  /** Inside the ends the two likelihoods coincide. */
  lemma {:induction false} LikelihoodShift(N: int, n: int, m: int, i: int)
    requires 0 <= n <= N && N >= 2 && 0 <= i < N - 1
    ensures S.Likelihoods(N, n, m)[i + 1] == B.Likelihoods(N, n, m, B.HYPERGEOMETRIC)[i]
  {
    assert B.Likelihoods(N, n, m, B.HYPERGEOMETRIC)[i] == Hypergeometric(i + 1, m, N, n);
  }

  /** Inside the ends, a script weight is the engine's weight rescaled by the ratio of the
      Jeffreys totals. */
  lemma {:induction false} WeightShift(N: int, n: int, m: int, invSqrt: real -> real, i: int)
    requires IsInvSqrt(invSqrt) && 1 <= m <= n - 1 && n <= N && 0 <= i < N - 1
    ensures Weights(S.Likelihoods(N, n, m), S.PriorOf(N, invSqrt))[i + 1] ==
      Scaled(Weights(B.Likelihoods(N, n, m, B.HYPERGEOMETRIC), B.PriorOf(N, B.JEFFREYS, invSqrt)), JeffreysRatio(N, invSqrt))[i]
  {
    PriorShift(N, invSqrt, i);
    LikelihoodShift(N, n, m, i);
    WeightRescaled(S.Likelihoods(N, n, m), S.PriorOf(N, invSqrt), B.Likelihoods(N, n, m, B.HYPERGEOMETRIC), B.PriorOf(N, B.JEFFREYS, invSqrt),
      i + 1, i, B.JeffreysWeights(B.Support(N), N, invSqrt)[i],
      Sum(S.JeffreysWeights(S.Support(N), N, invSqrt)), Sum(B.JeffreysWeights(B.Support(N), N, invSqrt)), JeffreysRatio(N, invSqrt));
  }

  /** The script's weights are the engine's, rescaled by a positive constant, with a zero at
      each end. */
  lemma {:induction false} WeightsPadded(N: int, n: int, m: int, invSqrt: real -> real)
    requires IsInvSqrt(invSqrt) && 1 <= m <= n - 1 && n <= N
    ensures Weights(S.Likelihoods(N, n, m), S.PriorOf(N, invSqrt)) ==
      [0.0] + Scaled(Weights(B.Likelihoods(N, n, m, B.HYPERGEOMETRIC), B.PriorOf(N, B.JEFFREYS, invSqrt)), JeffreysRatio(N, invSqrt)) + [0.0]
  {
    var ls, ps := S.Likelihoods(N, n, m), S.PriorOf(N, invSqrt);
    var ws := Weights(ls, ps);
    var wb := Weights(B.Likelihoods(N, n, m, B.HYPERGEOMETRIC), B.PriorOf(N, B.JEFFREYS, invSqrt));
    var k := JeffreysRatio(N, invSqrt);
    var padded := [0.0] + Scaled(wb, k) + [0.0];
    assert |ws| == |padded|;
    forall i | 0 <= i < |ws|
      ensures ws[i] == padded[i]
    {
      if i == 0 || i == N {
        assert !(ls[i] > 0.0) && ls[i] >= 0.0;
        assert ws[i] == ls[i] * ps[i] == 0.0;
      } else {
        WeightShift(N, n, m, invSqrt, i - 1);
        assert padded[i] == Scaled(wb, k)[i - 1];
      }
    }
  }

  /** For 1 <= m <= n - 1 <= N - 1, the script's posterior on 0..N is the engine's posterior
      on 1..N-1 (Jeffreys, hypergeometric) with a zero at each end. */
  lemma {:induction false} PosteriorPadded(N: int, n: int, m: int, invSqrt: real -> real)
    requires IsInvSqrt(invSqrt) && 1 <= m <= n - 1 && n <= N
    ensures S.WellPosed(N, n) && B.WellPosed(N, n, B.JEFFREYS, B.HYPERGEOMETRIC)
    ensures S.PosteriorAt(N, n, m, invSqrt) == [0.0] + B.PosteriorAt(N, n, m, B.JEFFREYS, B.HYPERGEOMETRIC, invSqrt) + [0.0]
  {
    S.PosteriorDefinedOnSearchRange(N, n, m, invSqrt);
    B.PosteriorDefinedOnSearchRange(N, n, m, B.JEFFREYS, B.HYPERGEOMETRIC, invSqrt);
    var ws := Weights(S.Likelihoods(N, n, m), S.PriorOf(N, invSqrt));
    var wb := Weights(B.Likelihoods(N, n, m, B.HYPERGEOMETRIC), B.PriorOf(N, B.JEFFREYS, invSqrt));
    WeightsPadded(N, n, m, invSqrt);
    var k := JeffreysRatio(N, invSqrt);
    assert Sum(wb) != 0.0;
    NormalizeScaleInvariant(wb, k);
    NormalizePadded(Scaled(wb, k));
    assert S.PosteriorAt(N, n, m, invSqrt) == Normalize(ws);
    assert B.PosteriorAt(N, n, m, B.JEFFREYS, B.HYPERGEOMETRIC, invSqrt) == Normalize(wb);
  }

  /** Hence the expected accept costs agree at every count of the search range. */
  lemma {:induction false} AcceptCostsAgree(N: int, n: int, m: int, costs: S.Costs, invSqrt: real -> real)
    requires IsInvSqrt(invSqrt) && 1 <= m <= n - 1 && n <= N
    ensures S.WellPosed(N, n) && B.WellPosed(N, n, B.JEFFREYS, B.HYPERGEOMETRIC)
    ensures S.AcceptCostAt(N, n, m, costs, invSqrt) == B.AcceptCostAt(N, n, m, AsRealistic(costs), B.JEFFREYS, B.HYPERGEOMETRIC, invSqrt)
  {
    PosteriorPadded(N, n, m, invSqrt);
    SupportPadded(N);
    var post := B.PosteriorAt(N, n, m, B.JEFFREYS, B.HYPERGEOMETRIC, invSqrt);
    var Ms := B.Support(N);
    CostsAgree([0] + Ms + [N], [0.0] + post + [0.0], costs, N);
    ExpectationPadded(Ms, post, M => B.AcceptLoss(AsRealistic(costs), N, M), 0, N);
  }

  /** Both searches characterise the same threshold: r is the script's first crossing exactly
      when it is the engine's, for the Jeffreys prior, the hypergeometric likelihood and the
      realistic form of the improved costs, on every lot of at least two items. (With N = 0 or
      N = 1 the engine's support 1..N-1 is empty and it still scans, while the model of the
      script reports InvalidParameters where the floating-point code computes NaN.) */
  lemma {:induction false} ThresholdsAgree(N: int, n: int, costs: S.Costs, invSqrt: real -> real, r: int)
    requires IsInvSqrt(invSqrt) && N >= 2
    ensures S.IsThreshold(N, n, costs, invSqrt, r) <==>
            B.IsThreshold(N, n, AsRealistic(costs), B.JEFFREYS, B.HYPERGEOMETRIC, invSqrt, r)
  {
    assert S.WellPosed(N, n) <==> B.WellPosed(N, n, B.JEFFREYS, B.HYPERGEOMETRIC);
    if S.WellPosed(N, n) {
      forall k | 1 <= k <= n - 1
        ensures S.AcceptCostAt(N, n, k, costs, invSqrt) == B.AcceptCostAt(N, n, k, AsRealistic(costs), B.JEFFREYS, B.HYPERGEOMETRIC, invSqrt)
      {
        AcceptCostsAgree(N, n, k, costs, invSqrt);
      }
      CostsAgree([], [], costs, N);
    }
  }

  /** So the two tools report the same maximum acceptable count. */
  lemma {:induction false} SameThreshold(N: int, n: int, costs: S.Costs, invSqrt: real -> real, r1: int, r2: int)
    requires IsInvSqrt(invSqrt) && N >= 2
    requires S.IsThreshold(N, n, costs, invSqrt, r1)
    requires B.IsThreshold(N, n, AsRealistic(costs), B.JEFFREYS, B.HYPERGEOMETRIC, invSqrt, r2)
    ensures r1 == r2
  {
    ThresholdsAgree(N, n, costs, invSqrt, r1);
    B.ThresholdUnique(N, n, AsRealistic(costs), B.JEFFREYS, B.HYPERGEOMETRIC, invSqrt, r1, r2);
  }
}
