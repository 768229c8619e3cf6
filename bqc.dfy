/** The general engine of the GUI front end (BQC.py): a prior and a likelihood chosen by
    name, the posterior over the lot's defect count M in 1..N-1, the "realistic" cost set,
    the forward threshold search and the audit window around the threshold. */
module BayesianQC {
  import opened Outcomes
  import opened Combinatorics
  import opened Distributions
  import opened Sampling
  import opened Decisions

  const JEFFREYS := "Jeffreys"
  const UNIFORM := "Uniform"
  const HYPERGEOMETRIC := "Hypergeometric"
  const BINOMIAL := "Binomial"

  /** The realistic cost set {c, O, P, R, F, I, D}. */
  datatype Costs = Costs(
    itemCost: real,         // c: cost per defective item
    opportunityCost: real,  // O: opportunity cost per defective item
    penalty: real,          // P: coefficient of the quadratic penalty for defectives
    revenue: real,          // R: revenue per non-defective item
    fixedCost: real,        // F: fixed overhead, paid on either decision
    inspectionCost: real,   // I: cost of inspecting a rejected lot
    delayCost: real)        // D: cost of delay or disruption due to rejection

  // ---------------------------------------------------------------- priors

  /** The candidate defect counts 1..N-1 (np.arange(1, N)); empty when N < 2. */
  function Support(N: int): seq<int>
  {
    seq(if N >= 1 then N - 1 else 0, i => i + 1)
  }

  /** np.clip for a single integer. */
  function Clip(M: int, lo: int, hi: int): int
  {
    if M < lo then lo else if M > hi then hi else M
  }

  /** The unnormalised Jeffreys prior at M, after clipping M into 1..N-1. */
  function JeffreysWeight(M: int, N: int, invSqrt: real -> real): (r: real)
    requires N >= 2 && IsInvSqrt(invSqrt)
    ensures r > 0.0
  {
    var p := Clip(M, 1, N - 1) as real / N as real;
    DefectRate(Clip(M, 1, N - 1), N);
    JeffreysDensityFacts(p, invSqrt);
    JeffreysDensity(p, invSqrt)
  }

  /** The flat prior 1 / (N - 1) at every point of the support. */
  function UniformPrior(Ms: seq<int>, N: int): (r: seq<real>)
    requires N != 1 || |Ms| == 0
    ensures |r| == |Ms|
    ensures N >= 2 ==> Positive(r)
    ensures N >= 2 && |Ms| == N - 1 ==> IsDistribution(r)
  {
    if |Ms| == 0 then []
    else
      var r := seq(|Ms|, i => 1.0 / (N - 1) as real);
      SumConstant(r, 1.0 / (N - 1) as real);
      r
  }

  /** The unnormalised Jeffreys weights over the given support; an empty support evaluates
      nothing, whatever N is. */
  function JeffreysWeights(Ms: seq<int>, N: int, invSqrt: real -> real): (r: seq<real>)
    requires (N >= 2 || |Ms| == 0) && IsInvSqrt(invSqrt)
    ensures |r| == |Ms| && Positive(r)
  {
    seq(|Ms|, i requires 0 <= i < |Ms| => JeffreysWeight(Ms[i], N, invSqrt))
  }

  /** calculate_jeffreys_prior: the Jeffreys weights divided by their sum. The result is a
      positive distribution in the ratio of the Jeffreys weights. An empty support gives an
      empty prior. */
  function CalculateJeffreysPrior(Ms: seq<int>, N: int, invSqrt: real -> real): (r: seq<real>)
    requires (N >= 2 || |Ms| == 0) && IsInvSqrt(invSqrt)
    ensures |r| == |Ms| && Positive(r)
    ensures |Ms| > 0 ==> IsDistribution(r)
    ensures Proportional(r, JeffreysWeights(Ms, N, invSqrt))
  {
    var raw := JeffreysWeights(Ms, N, invSqrt);
    if |Ms| == 0 then []
    else
      SumPositive(raw, 0);
      NormalizeIsDistribution(raw);
      NormalizeProportional(raw);
      NormalizePositiveWhere(raw);
      Normalize(raw)
  }

  /** calculate_prior: dispatch on the prior's name. */
  function CalculatePrior(Ms: seq<int>, N: int, priorModel: string, invSqrt: real -> real): (r: Result<seq<real>>)
    requires (N >= 2 || |Ms| == 0) && IsInvSqrt(invSqrt)
    ensures r.Failure? <==> priorModel != JEFFREYS && priorModel != UNIFORM
    ensures r.Failure? ==> r.error == UnknownPriorModel
    ensures r.Success? ==> |r.value| == |Ms| && Positive(r.value)
    ensures r.Success? && N >= 2 && |Ms| == N - 1 ==> IsDistribution(r.value)
  {
    if priorModel == JEFFREYS then Success(CalculateJeffreysPrior(Ms, N, invSqrt))
    else if priorModel == UNIFORM then Success(UniformPrior(Ms, N))
    else Failure(UnknownPriorModel)
  }

  /** The Jeffreys prior on 1..N-1 is symmetric: M and N - M get the same probability. */
  lemma {:induction false} JeffreysPriorSymmetric(N: int, invSqrt: real -> real, i: int)
    requires N >= 2 && IsInvSqrt(invSqrt) && 0 <= i < N - 1
    ensures CalculateJeffreysPrior(Support(N), N, invSqrt)[i] == CalculateJeffreysPrior(Support(N), N, invSqrt)[N - 2 - i]
  {
    var Ms := Support(N);
    var raw := JeffreysWeights(Ms, N, invSqrt);
    var j := N - 2 - i;
    var p := (i + 1) as real / N as real;
    Complement((i + 1) as real, N as real);
    assert (j + 1) as real == N as real - (i + 1) as real;
    DefectRate(i + 1, N);
    JeffreysDensityFacts(p, invSqrt);
    assert raw[i] == raw[j];
  }


  // ---------------------------------------------------------------- likelihoods

  /** calculate_likelihood: dispatch on the likelihood's name. The hypergeometric formula
      divides by C(N, n) and the binomial one by N; where that divisor is zero the model
      reports InvalidParameters. */
  function CalculateLikelihood(M: int, m: int, N: int, n: int, likelihoodModel: string): (r: Result<real>)
    ensures likelihoodModel != HYPERGEOMETRIC && likelihoodModel != BINOMIAL ==> r == Failure(UnknownLikelihoodModel)
    ensures likelihoodModel == HYPERGEOMETRIC ==> (r.Success? <==> 0 <= n <= N)
    ensures likelihoodModel == BINOMIAL ==> (r.Success? <==> N != 0)
    ensures r.Failure? && (likelihoodModel == HYPERGEOMETRIC || likelihoodModel == BINOMIAL) ==> r.error == InvalidParameters
    ensures r.Success? && 0 <= M <= N ==> r.value >= 0.0
    ensures r.Success? && likelihoodModel == HYPERGEOMETRIC ==>
      (r.value == 0.0 <==> m < 0 || m > M || n - m < 0 || n - m > N - M)
    ensures r.Success? && likelihoodModel == BINOMIAL && 0 < M < N ==> (r.value > 0.0 <==> 0 <= m <= n)
  {
    if likelihoodModel == HYPERGEOMETRIC then
      if 0 <= n <= N then Success(Hypergeometric(M, m, N, n)) else Failure(InvalidParameters)
    else if likelihoodModel == BINOMIAL then
      if N != 0 then Success(Binomial(M, m, N, n)) else Failure(InvalidParameters)
    else Failure(UnknownLikelihoodModel)
  }

  // ---------------------------------------------------------------- posterior

  /** The error that calculate_posterior meets before any weight is formed, whatever m is:
      an unknown prior, then, when the support 1..N-1 is not empty, an unknown likelihood or
      a hypergeometric divisor C(N, n) of zero. On an empty support (N < 2) no likelihood is
      evaluated, so nothing else can fail. Checked in the order the source evaluates them. */
  function SetupError(N: int, n: int, priorModel: string, likelihoodModel: string): Option<Error>
  {
    if priorModel != JEFFREYS && priorModel != UNIFORM then Some(UnknownPriorModel)
    else if N < 2 then None
    else if likelihoodModel != HYPERGEOMETRIC && likelihoodModel != BINOMIAL then Some(UnknownLikelihoodModel)
    else if likelihoodModel == HYPERGEOMETRIC && !(0 <= n <= N) then Some(InvalidParameters)
    else None
  }

  /** The prior calculate_posterior uses once the setup is sound: positive on the support,
      and a distribution when the support is not empty. */
  function PriorOf(N: int, priorModel: string, invSqrt: real -> real): (r: seq<real>)
    requires (priorModel == JEFFREYS || priorModel == UNIFORM) && IsInvSqrt(invSqrt)
    ensures |r| == |Support(N)| && Positive(r)
    ensures N >= 2 ==> IsDistribution(r)
  {
    CalculatePrior(Support(N), N, priorModel, invSqrt).value
  }

  /** The likelihood of the evidence m at every M of the support, once the setup is sound.
      The hypergeometric one is positive exactly where M can explain m; the binomial one is
      positive everywhere when 0 <= m <= n. An empty support has no likelihoods. */
  function Likelihoods(N: int, n: int, m: int, likelihoodModel: string): (r: seq<real>)
    requires N < 2 || (likelihoodModel == HYPERGEOMETRIC && 0 <= n <= N) || likelihoodModel == BINOMIAL
    ensures |r| == |Support(N)| && NonNegative(r)
    ensures likelihoodModel == HYPERGEOMETRIC ==>
      forall i :: 0 <= i < N - 1 ==> (r[i] > 0.0 <==> 0 <= m <= i + 1 && 0 <= n - m <= N - (i + 1))
    ensures likelihoodModel == BINOMIAL ==>
      forall i :: 0 <= i < N - 1 ==> (r[i] > 0.0 <==> 0 <= m <= n)
  {
    var Ms := Support(N);
    seq(|Ms|, i requires 0 <= i < |Ms| => CalculateLikelihood(Ms[i], m, N, n, likelihoodModel).value)
  }

  /** calculate_posterior: likelihood times prior at every M in 1..N-1, divided by the sum.
      A setup error is reported as such; a sound setup yields the support 1..N-1, the prior
      and a posterior on it, unless every weight is zero (DegeneratePosterior). An empty
      support divides empty arrays: no error, and an empty posterior. What the posterior is,
      is stated by PosteriorIsBayes. */
  function CalculatePosterior(N: int, n: int, m: int, priorModel: string, likelihoodModel: string, invSqrt: real -> real): (r: Result<PosteriorTable>)
    requires IsInvSqrt(invSqrt)
    ensures SetupError(N, n, priorModel, likelihoodModel).Some? ==> r == Failure(SetupError(N, n, priorModel, likelihoodModel).value)
    ensures SetupError(N, n, priorModel, likelihoodModel).None? && r.Failure? ==> r.error == DegeneratePosterior
    ensures r.Success? ==> SetupError(N, n, priorModel, likelihoodModel).None?
    ensures r.Success? ==> r.value.Ms == Support(N) && r.value.prior == PriorOf(N, priorModel, invSqrt)
    ensures r.Success? ==> |r.value.posterior| == |Support(N)|
    ensures SetupError(N, n, priorModel, likelihoodModel).None? && N < 2 ==> r.Success?
  {
    match SetupError(N, n, priorModel, likelihoodModel)
    case Some(e) => Failure(e)
    case None =>
      var prior := PriorOf(N, priorModel, invSqrt);
      var w := Weights(Likelihoods(N, n, m, likelihoodModel), prior);
      if N < 2 then Success(PosteriorTable(Support(N), prior, []))
      else if Sum(w) == 0.0 then Failure(DegeneratePosterior)
      else Success(PosteriorTable(Support(N), prior, Normalize(w)))
  }

  /** Bayes' rule, as calculate_posterior applies it: once the setup is sound, a posterior
      exists exactly when some M explains the evidence; it is then a distribution, in the
      ratio of likelihood times prior, and positive exactly where the likelihood is. */
  lemma {:induction false} PosteriorIsBayes(N: int, n: int, m: int, priorModel: string, likelihoodModel: string, invSqrt: real -> real)
    requires IsInvSqrt(invSqrt) && N >= 2 && SetupError(N, n, priorModel, likelihoodModel).None?
    ensures var r := CalculatePosterior(N, n, m, priorModel, likelihoodModel, invSqrt);
      r.Failure? <==> forall i :: 0 <= i < N - 1 ==> Likelihoods(N, n, m, likelihoodModel)[i] == 0.0
    ensures var r := CalculatePosterior(N, n, m, priorModel, likelihoodModel, invSqrt);
      r.Success? ==>
        && IsDistribution(r.value.posterior)
        && Proportional(r.value.posterior, Weights(Likelihoods(N, n, m, likelihoodModel), r.value.prior))
        && SameSupport(r.value.posterior, Likelihoods(N, n, m, likelihoodModel))
  {
    var prior := PriorOf(N, priorModel, invSqrt);
    var likes := Likelihoods(N, n, m, likelihoodModel);
    var w := Weights(likes, prior);
    SumZeroIffAllZero(w);
    assert (forall i :: 0 <= i < N - 1 ==> likes[i] == 0.0) <==> (forall i :: 0 <= i < N - 1 ==> w[i] == 0.0) by {
      assert SameSupport(w, likes);
    }
    if Sum(w) != 0.0 {
      NormalizeIsDistribution(w);
      NormalizeProportional(w);
      NormalizePositiveWhere(w);
      SameSupportTransitive(Normalize(w), w, likes);
    }
  }

  // ---------------------------------------------------------------- costs

  /** The cost of accepting a lot that holds M defectives: direct, opportunity and quadratic
      penalty costs of the defectives, less the revenue from the N - M good items, plus the
      fixed overhead. */
  function AcceptLoss(costs: Costs, N: int, M: int): real
  {
    costs.itemCost * M as real + costs.opportunityCost * M as real + costs.penalty * (M * M) as real
      - costs.revenue * (N - M) as real + costs.fixedCost
  }

  /** realistic_expected_cost_accept: the posterior expectation of AcceptLoss. */
  function RealisticExpectedCostAccept(Ms: seq<int>, posterior: seq<real>, costs: Costs, N: int): real
    requires |Ms| == |posterior|
  {
    Expectation(Ms, posterior, M => AcceptLoss(costs, N, M))
  }

  /** realistic_expected_cost_reject: inspection, re-procurement of the whole lot at the unit
      cost, delay and overhead. It depends on neither the posterior nor the observed count. */
  function RealisticExpectedCostReject(costs: Costs, N: int): real
  {
    costs.inspectionCost + N as real * costs.itemCost + costs.delayCost + costs.fixedCost
  }

  /** The expected accept cost lies between the least and the greatest AcceptLoss on the
      support, and equals AcceptLoss(M) when the posterior is certain of M. */
  lemma {:induction false} AcceptCostIsExpectedLoss(Ms: seq<int>, posterior: seq<real>, costs: Costs, N: int, lo: real, hi: real)
    requires |Ms| == |posterior| && IsDistribution(posterior)
    requires forall i :: 0 <= i < |Ms| ==> lo <= AcceptLoss(costs, N, Ms[i]) <= hi
    ensures lo <= RealisticExpectedCostAccept(Ms, posterior, costs, N) <= hi
  {
    ExpectationBetween(Ms, posterior, M => AcceptLoss(costs, N, M), lo, hi);
  }

  /** A posterior that puts all its mass on Ms[j] makes the expected accept cost AcceptLoss(Ms[j]). */
  lemma {:induction false} AcceptCostOfKnownLot(Ms: seq<int>, posterior: seq<real>, costs: Costs, N: int, j: int)
    requires |Ms| == |posterior| && 0 <= j < |Ms|
    requires posterior[j] == 1.0 && forall i :: 0 <= i < |Ms| && i != j ==> posterior[i] == 0.0
    ensures RealisticExpectedCostAccept(Ms, posterior, costs, N) == AcceptLoss(costs, N, Ms[j])
  {
    ExpectationPointMass(Ms, posterior, M => AcceptLoss(costs, N, M), j);
  }

  /** F enters AcceptLoss as a plain summand. */
  lemma {:induction false} OverheadShift(costs: Costs, N: int, M: int)
    ensures AcceptLoss(costs, N, M) == AcceptLoss(costs.(fixedCost := 0.0), N, M) + costs.fixedCost
  {
    var noOverhead := costs.(fixedCost := 0.0);
    assert noOverhead.itemCost == costs.itemCost && noOverhead.opportunityCost == costs.opportunityCost;
    assert noOverhead.penalty == costs.penalty && noOverhead.revenue == costs.revenue;
  }

  /** The fixed overhead F is paid on either decision, so it never changes which is cheaper. */
  lemma {:induction false} FixedCostCancels(Ms: seq<int>, posterior: seq<real>, costs: Costs, N: int)
    requires |Ms| == |posterior| && IsDistribution(posterior)
    ensures var noOverhead := costs.(fixedCost := 0.0);
      RealisticExpectedCostAccept(Ms, posterior, costs, N) - RealisticExpectedCostReject(costs, N) ==
      RealisticExpectedCostAccept(Ms, posterior, noOverhead, N) - RealisticExpectedCostReject(noOverhead, N)
  {
    var noOverhead := costs.(fixedCost := 0.0);
    var f, g := M => AcceptLoss(noOverhead, N, M), M => AcceptLoss(costs, N, M);
    forall i | 0 <= i < |Ms|
      ensures g(Ms[i]) == f(Ms[i]) + costs.fixedCost
    {
      OverheadShift(costs, N, Ms[i]);
    }
    ExpectationShift(Ms, posterior, f, g, costs.fixedCost);
    assert Sum(posterior) == 1.0;
    assert RealisticExpectedCostAccept(Ms, posterior, costs, N) == RealisticExpectedCostAccept(Ms, posterior, noOverhead, N) + costs.fixedCost;
    assert RealisticExpectedCostReject(costs, N) == RealisticExpectedCostReject(noOverhead, N) + costs.fixedCost;
  }

  // ---------------------------------------------------------------- threshold search

  /** The inputs for which every m in 1..n-1 has a posterior: at least one m to evaluate and
      no setup error. */
  predicate WellPosed(N: int, n: int, priorModel: string, likelihoodModel: string)
  {
    n >= 2 && SetupError(N, n, priorModel, likelihoodModel).None?
  }

  /** Throughout the search range the posterior exists: the support is empty, or M = m
      (hypergeometric) or any M (binomial) explains the evidence, so the weights never all
      vanish. */
  lemma {:induction false} PosteriorDefinedOnSearchRange(N: int, n: int, m: int, priorModel: string, likelihoodModel: string, invSqrt: real -> real)
    requires IsInvSqrt(invSqrt) && WellPosed(N, n, priorModel, likelihoodModel) && 1 <= m <= n - 1
    ensures CalculatePosterior(N, n, m, priorModel, likelihoodModel, invSqrt).Success?
  {
    if N >= 2 {
      var likes := Likelihoods(N, n, m, likelihoodModel);
      var j := if likelihoodModel == HYPERGEOMETRIC then m - 1 else 0;
      assert likes[j] > 0.0;
      PosteriorIsBayes(N, n, m, priorModel, likelihoodModel, invSqrt);
    }
  }

  /** The posterior for observed count m, inside the search range. */
  function PosteriorAt(N: int, n: int, m: int, priorModel: string, likelihoodModel: string, invSqrt: real -> real): seq<real>
    requires IsInvSqrt(invSqrt) && WellPosed(N, n, priorModel, likelihoodModel) && 1 <= m <= n - 1
  {
    PosteriorDefinedOnSearchRange(N, n, m, priorModel, likelihoodModel, invSqrt);
    CalculatePosterior(N, n, m, priorModel, likelihoodModel, invSqrt).value.posterior
  }

  /** The expected accept cost for observed count m, inside the search range. */
  function AcceptCostAt(N: int, n: int, m: int, costs: Costs, priorModel: string, likelihoodModel: string, invSqrt: real -> real): real
    requires IsInvSqrt(invSqrt) && WellPosed(N, n, priorModel, likelihoodModel) && 1 <= m <= n - 1
  {
    PosteriorDefinedOnSearchRange(N, n, m, priorModel, likelihoodModel, invSqrt);
    RealisticExpectedCostAccept(Support(N), PosteriorAt(N, n, m, priorModel, likelihoodModel, invSqrt), costs, N)
  }

  /** Accepting is cheaper than rejecting for every observed count in 1..upTo. */
  ghost predicate AcceptedUpTo(N: int, n: int, costs: Costs, priorModel: string, likelihoodModel: string, invSqrt: real -> real, upTo: int)
  {
    && IsInvSqrt(invSqrt) && WellPosed(N, n, priorModel, likelihoodModel) && upTo <= n - 1
    && forall k :: 1 <= k <= upTo ==>
         AcceptCostAt(N, n, k, costs, priorModel, likelihoodModel, invSqrt) < RealisticExpectedCostReject(costs, N)
  }

  /** r is what the first-crossing scan must report: accepting is cheaper for every m in 1..r,
      and either r = n - 1 (no crossing before n) or accepting is not cheaper at m = r + 1. */
  ghost predicate IsThreshold(N: int, n: int, costs: Costs, priorModel: string, likelihoodModel: string, invSqrt: real -> real, r: int)
  {
    && 0 <= r
    && AcceptedUpTo(N, n, costs, priorModel, likelihoodModel, invSqrt, r)
    && (r < n - 1 ==>
          AcceptCostAt(N, n, r + 1, costs, priorModel, likelihoodModel, invSqrt) >= RealisticExpectedCostReject(costs, N))
  }

  /** One more count where accepting is cheaper extends the accepted range. */
  lemma {:induction false} AcceptedExtend(N: int, n: int, costs: Costs, priorModel: string, likelihoodModel: string, invSqrt: real -> real, m: int)
    requires IsInvSqrt(invSqrt) && WellPosed(N, n, priorModel, likelihoodModel) && 1 <= m <= n - 1
    requires m == 1 || AcceptedUpTo(N, n, costs, priorModel, likelihoodModel, invSqrt, m - 1)
    requires AcceptCostAt(N, n, m, costs, priorModel, likelihoodModel, invSqrt) < RealisticExpectedCostReject(costs, N)
    ensures AcceptedUpTo(N, n, costs, priorModel, likelihoodModel, invSqrt, m)
  {
  }

  /** The scan's two ways out: a crossing at m makes m - 1 the threshold, and running off the
      end with every count accepted makes n - 1 the threshold. */
  lemma {:induction false} ThresholdFound(N: int, n: int, costs: Costs, priorModel: string, likelihoodModel: string, invSqrt: real -> real, m: int)
    requires IsInvSqrt(invSqrt) && WellPosed(N, n, priorModel, likelihoodModel) && 1 <= m <= n
    requires m == 1 || AcceptedUpTo(N, n, costs, priorModel, likelihoodModel, invSqrt, m - 1)
    requires m < n ==> AcceptCostAt(N, n, m, costs, priorModel, likelihoodModel, invSqrt) >= RealisticExpectedCostReject(costs, N)
    ensures IsThreshold(N, n, costs, priorModel, likelihoodModel, invSqrt, m - 1)
  {
  }

  /** With a lot of fewer than two items the support 1..N-1 is empty, every posterior is empty
      and every expected accept cost is 0: the scan accepts all of 1..n-1 when rejecting costs
      something, and stops at once otherwise. */
  lemma {:induction false} EmptySupportThreshold(N: int, n: int, costs: Costs, priorModel: string, likelihoodModel: string, invSqrt: real -> real, r: int)
    requires IsInvSqrt(invSqrt) && N < 2 && n >= 2 && (priorModel == JEFFREYS || priorModel == UNIFORM)
    ensures WellPosed(N, n, priorModel, likelihoodModel)
    ensures IsThreshold(N, n, costs, priorModel, likelihoodModel, invSqrt, r) <==>
      r == (if RealisticExpectedCostReject(costs, N) > 0.0 then n - 1 else 0)
  {
    forall k | 1 <= k <= n - 1
      ensures AcceptCostAt(N, n, k, costs, priorModel, likelihoodModel, invSqrt) == 0.0
    {
      PosteriorDefinedOnSearchRange(N, n, k, priorModel, likelihoodModel, invSqrt);
      assert PosteriorAt(N, n, k, priorModel, likelihoodModel, invSqrt) == [];
      assert Support(N) == [];
    }
    if RealisticExpectedCostReject(costs, N) > 0.0 {
      ThresholdFound(N, n, costs, priorModel, likelihoodModel, invSqrt, n);
      if IsThreshold(N, n, costs, priorModel, likelihoodModel, invSqrt, r) {
        ThresholdUnique(N, n, costs, priorModel, likelihoodModel, invSqrt, r, n - 1);
      }
    } else {
      ThresholdFound(N, n, costs, priorModel, likelihoodModel, invSqrt, 1);
      if IsThreshold(N, n, costs, priorModel, likelihoodModel, invSqrt, r) {
        ThresholdUnique(N, n, costs, priorModel, likelihoodModel, invSqrt, r, 0);
      }
    }
  }

  /** The first-crossing threshold is unique: the costs alone decide what the scan reports. */
  lemma {:induction false} ThresholdUnique(N: int, n: int, costs: Costs, priorModel: string, likelihoodModel: string, invSqrt: real -> real, r1: int, r2: int)
    requires IsThreshold(N, n, costs, priorModel, likelihoodModel, invSqrt, r1)
    requires IsThreshold(N, n, costs, priorModel, likelihoodModel, invSqrt, r2)
    ensures r1 == r2
  {
  }

  /** The posteriors of m = 1..count, each paired with its m, in increasing order of m. */
  function Evaluated(N: int, n: int, priorModel: string, likelihoodModel: string, invSqrt: real -> real, count: int): (r: seq<(int, seq<real>)>)
    requires IsInvSqrt(invSqrt) && WellPosed(N, n, priorModel, likelihoodModel) && 0 <= count <= n - 1
    ensures |r| == count
    ensures forall k :: 0 <= k < count ==> r[k] == (k + 1, PosteriorAt(N, n, k + 1, priorModel, likelihoodModel, invSqrt))
    decreases count
  {
    if count == 0 then []
    else Evaluated(N, n, priorModel, likelihoodModel, invSqrt, count - 1) + [(count, PosteriorAt(N, n, count, priorModel, likelihoodModel, invSqrt))]
  }

  /** The state of the scan before count m: nothing computed yet when m = 1; otherwise every
      count in 1..m-1 was accepted, the last table is over the support with the prior, and the
      posteriors of 1..m-1 were collected in order. */
  ghost predicate Scanned(N: int, n: int, costs: Costs, priorModel: string, likelihoodModel: string, invSqrt: real -> real,
                          m: int, last: Option<PosteriorTable>, allPosteriors: seq<(int, seq<real>)>)
  {
    && 1 <= m && (m == 1 || m <= n)
    && (m == 1 ==> last == None && allPosteriors == [])
    && (m > 1 ==>
          && AcceptedUpTo(N, n, costs, priorModel, likelihoodModel, invSqrt, m - 1)
          && last.Some? && last.value.Ms == Support(N) && last.value.prior == PriorOf(N, priorModel, invSqrt)
          && allPosteriors == Evaluated(N, n, priorModel, likelihoodModel, invSqrt, m - 1))
  }

  /** One pass of the scan at count m: the posterior of m joins the collected ones; if
      accepting is cheaper the scan goes on to m + 1, otherwise m - 1 is the threshold. */
  lemma {:induction false} ScanStep(N: int, n: int, costs: Costs, priorModel: string, likelihoodModel: string, invSqrt: real -> real,
                                    m: int, last: Option<PosteriorTable>, allPosteriors: seq<(int, seq<real>)>,
                                    table: PosteriorTable, accept: real)
    requires IsInvSqrt(invSqrt) && WellPosed(N, n, priorModel, likelihoodModel) && 1 <= m <= n - 1
    requires Scanned(N, n, costs, priorModel, likelihoodModel, invSqrt, m, last, allPosteriors)
    requires table.Ms == Support(N) && table.prior == PriorOf(N, priorModel, invSqrt)
    requires table.posterior == PosteriorAt(N, n, m, priorModel, likelihoodModel, invSqrt)
    requires accept == AcceptCostAt(N, n, m, costs, priorModel, likelihoodModel, invSqrt)
    ensures allPosteriors + [(m, table.posterior)] == Evaluated(N, n, priorModel, likelihoodModel, invSqrt, m)
    ensures accept < RealisticExpectedCostReject(costs, N) ==>
      Scanned(N, n, costs, priorModel, likelihoodModel, invSqrt, m + 1, Some(table), allPosteriors + [(m, table.posterior)])
    ensures accept >= RealisticExpectedCostReject(costs, N) ==>
      IsThreshold(N, n, costs, priorModel, likelihoodModel, invSqrt, m - 1)
  {
    if accept < RealisticExpectedCostReject(costs, N) {
      AcceptedExtend(N, n, costs, priorModel, likelihoodModel, invSqrt, m);
    } else {
      ThresholdFound(N, n, costs, priorModel, likelihoodModel, invSqrt, m);
    }
  }

  /** A scan that runs off the end, having evaluated something, accepted every count in
      1..n-1: n - 1 is the threshold and the posteriors of all of 1..n-1 were collected. */
  lemma {:induction false} ScanEnd(N: int, n: int, costs: Costs, priorModel: string, likelihoodModel: string, invSqrt: real -> real,
                                   m: int, last: Option<PosteriorTable>, allPosteriors: seq<(int, seq<real>)>)
    requires IsInvSqrt(invSqrt) && m >= n && last.Some?
    requires Scanned(N, n, costs, priorModel, likelihoodModel, invSqrt, m, last, allPosteriors)
    ensures m == n && WellPosed(N, n, priorModel, likelihoodModel)
    ensures IsThreshold(N, n, costs, priorModel, likelihoodModel, invSqrt, m - 1)
    ensures allPosteriors == Evaluated(N, n, priorModel, likelihoodModel, invSqrt, Min(m, n - 1))
  {
    ThresholdFound(N, n, costs, priorModel, likelihoodModel, invSqrt, m);
  }

  /** One pass of the loop of find_max_acceptable_m_realistic, for a count m in 1..n-1: the
      posterior table at m and the expected accept cost under it. It fails exactly with the
      setup error, if there is one. */
  method SearchStep(N: int, n: int, m: int, costs: Costs, priorModel: string, likelihoodModel: string, invSqrt: real -> real)
    returns (res: Result<(PosteriorTable, real)>)
    requires IsInvSqrt(invSqrt) && 1 <= m <= n - 1
    ensures SetupError(N, n, priorModel, likelihoodModel).Some? ==> res == Failure(SetupError(N, n, priorModel, likelihoodModel).value)
    ensures SetupError(N, n, priorModel, likelihoodModel).None? ==>
      && WellPosed(N, n, priorModel, likelihoodModel) && res.Success?
      && res.value.0.Ms == Support(N) && res.value.0.prior == PriorOf(N, priorModel, invSqrt)
      && res.value.0.posterior == PosteriorAt(N, n, m, priorModel, likelihoodModel, invSqrt)
      && res.value.1 == AcceptCostAt(N, n, m, costs, priorModel, likelihoodModel, invSqrt)
  {
    ghost var wellPosed := WellPosed(N, n, priorModel, likelihoodModel);
    if wellPosed {
      PosteriorDefinedOnSearchRange(N, n, m, priorModel, likelihoodModel, invSqrt);
    }
    var table := CalculatePosterior(N, n, m, priorModel, likelihoodModel, invSqrt);
    if table.Failure? {
      return Failure(table.error);
    }
    var accept := RealisticExpectedCostAccept(table.value.Ms, table.value.posterior, costs, N);
    res := Success((table.value, accept));
  }

  /** find_max_acceptable_m_realistic: scan m = 1, 2, ... while m < n and stop at the first m
      whose expected accept cost is not below the reject cost; report m - 1. When n <= 1 the
      loop never runs and the source has no distributions to return (NothingEvaluated); a
      setup error surfaces at the first posterior. Otherwise the result is the threshold, the
      support, the prior and the posteriors of m = 1..min(threshold + 1, n - 1). */
  method FindMaxAcceptableM(N: int, n: int, costs: Costs, priorModel: string, likelihoodModel: string, invSqrt: real -> real)
    returns (res: Result<SearchOutcome>)
    requires IsInvSqrt(invSqrt)
    ensures n < 2 ==> res == Failure(NothingEvaluated)
    ensures n >= 2 && SetupError(N, n, priorModel, likelihoodModel).Some? ==>
      res == Failure(SetupError(N, n, priorModel, likelihoodModel).value)
    ensures WellPosed(N, n, priorModel, likelihoodModel) ==> res.Success?
    ensures res.Success? ==>
      && WellPosed(N, n, priorModel, likelihoodModel)
      && IsThreshold(N, n, costs, priorModel, likelihoodModel, invSqrt, res.value.threshold)
      && res.value.Ms == Support(N)
      && res.value.prior == PriorOf(N, priorModel, invSqrt)
      && res.value.posteriors == Evaluated(N, n, priorModel, likelihoodModel, invSqrt, Min(res.value.threshold + 1, n - 1))
  {
    var reject := RealisticExpectedCostReject(costs, N);
    var m := 1;
    var allPosteriors: seq<(int, seq<real>)> := [];
    var last: Option<PosteriorTable> := None;
    while m < n
      invariant Scanned(N, n, costs, priorModel, likelihoodModel, invSqrt, m, last, allPosteriors)
    {
      var step := SearchStep(N, n, m, costs, priorModel, likelihoodModel, invSqrt);
      if step.Failure? {
        return Failure(step.error);
      }
      var table, accept := step.value.0, step.value.1;
      ScanStep(N, n, costs, priorModel, likelihoodModel, invSqrt, m, last, allPosteriors, table, accept);
      last := Some(table);
      allPosteriors := allPosteriors + [(m, table.posterior)];
      if accept >= reject {
        break;
      }
      m := m + 1;
    }
    if last.None? {
      return Failure(NothingEvaluated);
    }
    if m >= n {
      ScanEnd(N, n, costs, priorModel, likelihoodModel, invSqrt, m, last, allPosteriors);
    }
    res := Success(SearchOutcome(m - 1, last.value.Ms, last.value.prior, allPosteriors));
  }

  // ---------------------------------------------------------------- audit window

  /** One audit line for count x is right: it carries x, the expected accept cost at x, the
      reject cost, the decision Accept exactly when accepting is cheaper, and x's posterior. */
  ghost predicate AuditLine(N: int, n: int, costs: Costs, priorModel: string, likelihoodModel: string, invSqrt: real -> real,
                            x: int, detail: CostDetail, entry: (int, seq<real>))
  {
    && IsInvSqrt(invSqrt) && WellPosed(N, n, priorModel, likelihoodModel) && 1 <= x <= n - 1
    && detail.m == x
    && detail.acceptCost == AcceptCostAt(N, n, x, costs, priorModel, likelihoodModel, invSqrt)
    && detail.rejectCost == RealisticExpectedCostReject(costs, N)
    && (detail.decision == Accept <==> detail.acceptCost < detail.rejectCost)
    && entry == (x, PosteriorAt(N, n, x, priorModel, likelihoodModel, invSqrt))
  }

  /** The audit lines are right for the counts W, line by line. */
  ghost predicate AuditLines(N: int, n: int, costs: Costs, priorModel: string, likelihoodModel: string, invSqrt: real -> real,
                             W: seq<int>, details: seq<CostDetail>, selected: seq<(int, seq<real>)>)
  {
    && |details| == |W| && |selected| == |W|
    && forall k :: 0 <= k < |W| ==> AuditLine(N, n, costs, priorModel, likelihoodModel, invSqrt, W[k], details[k], selected[k])
  }

  /** Appending a right line for x keeps the lines right for W + [x]. */
  lemma {:induction false} AuditLinesAppend(N: int, n: int, costs: Costs, priorModel: string, likelihoodModel: string, invSqrt: real -> real,
                                            W: seq<int>, details: seq<CostDetail>, selected: seq<(int, seq<real>)>,
                                            x: int, detail: CostDetail, entry: (int, seq<real>))
    requires AuditLines(N, n, costs, priorModel, likelihoodModel, invSqrt, W, details, selected)
    requires AuditLine(N, n, costs, priorModel, likelihoodModel, invSqrt, x, detail, entry)
    ensures AuditLines(N, n, costs, priorModel, likelihoodModel, invSqrt, W + [x], details + [detail], selected + [entry])
  {
    var W', details', selected' := W + [x], details + [detail], selected + [entry];
    forall k | 0 <= k < |W'|
      ensures AuditLine(N, n, costs, priorModel, likelihoodModel, invSqrt, W'[k], details'[k], selected'[k])
    {
      if k < |W| {
        assert W'[k] == W[k] && details'[k] == details[k] && selected'[k] == selected[k];
      }
    }
  }

  /** One pass of the audit loop of print_costs_around_m_realistic, for a count x in 1..n-1:
      the posterior at x, both expected costs and the decision. It fails exactly with the
      setup error, if there is one. */
  method AuditLineAt(N: int, n: int, costs: Costs, x: int, priorModel: string, likelihoodModel: string, invSqrt: real -> real)
    returns (res: Result<(CostDetail, (int, seq<real>))>)
    requires IsInvSqrt(invSqrt) && 1 <= x <= n - 1
    ensures SetupError(N, n, priorModel, likelihoodModel).Some? ==> res == Failure(SetupError(N, n, priorModel, likelihoodModel).value)
    ensures SetupError(N, n, priorModel, likelihoodModel).None? ==>
      res.Success? && AuditLine(N, n, costs, priorModel, likelihoodModel, invSqrt, x, res.value.0, res.value.1)
  {
    ghost var wellPosed := WellPosed(N, n, priorModel, likelihoodModel);
    if wellPosed {
      PosteriorDefinedOnSearchRange(N, n, x, priorModel, likelihoodModel, invSqrt);
    }
    var table := CalculatePosterior(N, n, x, priorModel, likelihoodModel, invSqrt);
    if table.Failure? {
      return Failure(table.error);
    }
    var accept := RealisticExpectedCostAccept(table.value.Ms, table.value.posterior, costs, N);
    var reject := RealisticExpectedCostReject(costs, N);
    res := Success((CostDetail(x, accept, reject, if accept < reject then Accept else Reject), (x, table.value.posterior)));
  }

  /** The state of the audit loop after the first j candidates: no candidate so far was a
      valid count if the setup is unsound, and the lines so far are right for the valid ones. */
  ghost predicate AuditedSoFar(N: int, n: int, costs: Costs, priorModel: string, likelihoodModel: string, invSqrt: real -> real,
                               mStar: int, j: nat, details: seq<CostDetail>, selected: seq<(int, seq<real>)>)
  {
    && (SetupError(N, n, priorModel, likelihoodModel).Some? ==> Candidates(mStar, n, j) == [])
    && AuditLines(N, n, costs, priorModel, likelihoodModel, invSqrt, Candidates(mStar, n, j), details, selected)
  }

  /** A candidate outside 1..n-1 adds no line. */
  lemma {:induction false} AuditSkip(N: int, n: int, costs: Costs, priorModel: string, likelihoodModel: string, invSqrt: real -> real,
                                     mStar: int, j: nat, details: seq<CostDetail>, selected: seq<(int, seq<real>)>)
    requires AuditedSoFar(N, n, costs, priorModel, likelihoodModel, invSqrt, mStar, j, details, selected)
    requires !(1 <= mStar - 1 + j < n)
    ensures AuditedSoFar(N, n, costs, priorModel, likelihoodModel, invSqrt, mStar, j + 1, details, selected)
  {
    assert Candidates(mStar, n, j + 1) == Candidates(mStar, n, j);
  }

  /** A valid candidate adds its right line. */
  lemma {:induction false} AuditAppend(N: int, n: int, costs: Costs, priorModel: string, likelihoodModel: string, invSqrt: real -> real,
                                       mStar: int, j: nat, details: seq<CostDetail>, selected: seq<(int, seq<real>)>,
                                       detail: CostDetail, entry: (int, seq<real>))
    requires AuditedSoFar(N, n, costs, priorModel, likelihoodModel, invSqrt, mStar, j, details, selected)
    requires AuditLine(N, n, costs, priorModel, likelihoodModel, invSqrt, mStar - 1 + j, detail, entry)
    ensures AuditedSoFar(N, n, costs, priorModel, likelihoodModel, invSqrt, mStar, j + 1, details + [detail], selected + [entry])
  {
    assert Candidates(mStar, n, j + 1) == Candidates(mStar, n, j) + [mStar - 1 + j];
    AuditLinesAppend(N, n, costs, priorModel, likelihoodModel, invSqrt, Candidates(mStar, n, j), details, selected,
                     mStar - 1 + j, detail, entry);
  }

  /** print_costs_around_m_realistic: for each audited count, its posterior, both expected
      costs and the decision. Candidates outside 1..n-1 are skipped without evaluating
      anything, so an empty window succeeds with nothing even when the setup is unsound. */
  method CostsAroundM(N: int, n: int, costs: Costs, mStar: int, priorModel: string, likelihoodModel: string, invSqrt: real -> real)
    returns (res: Result<(seq<CostDetail>, seq<(int, seq<real>)>)>)
    requires IsInvSqrt(invSqrt)
    ensures AuditPoints(mStar, n) == [] ==> res == Success(([], []))
    ensures AuditPoints(mStar, n) != [] && SetupError(N, n, priorModel, likelihoodModel).Some? ==>
      res == Failure(SetupError(N, n, priorModel, likelihoodModel).value)
    ensures AuditPoints(mStar, n) != [] && SetupError(N, n, priorModel, likelihoodModel).None? ==> res.Success?
    ensures res.Success? ==> AuditLines(N, n, costs, priorModel, likelihoodModel, invSqrt, AuditPoints(mStar, n), res.value.0, res.value.1)
  {
    var details: seq<CostDetail> := [];
    var selected: seq<(int, seq<real>)> := [];
    for j := 0 to 3
      invariant AuditedSoFar(N, n, costs, priorModel, likelihoodModel, invSqrt, mStar, j, details, selected)
    {
      var x := mStar - 1 + j;
      if x < 1 || x >= n {
        AuditSkip(N, n, costs, priorModel, likelihoodModel, invSqrt, mStar, j, details, selected);
        continue;
      }
      var line := AuditLineAt(N, n, costs, x, priorModel, likelihoodModel, invSqrt);
      if line.Failure? {
        assert x in AuditPoints(mStar, n);
        return Failure(line.error);
      }
      AuditAppend(N, n, costs, priorModel, likelihoodModel, invSqrt, mStar, j, details, selected, line.value.0, line.value.1);
      details := details + [line.value.0];
      selected := selected + [line.value.1];
    }
    assert Candidates(mStar, n, 3) == AuditPoints(mStar, n);
    res := Success((details, selected));
  }

  /** Around a threshold r reported by the search, the audit labels a count Accept exactly
      when it is at most r: r - 1 and r are Accept and r + 1 is Reject. */
  lemma {:induction false} AuditAgreesWithThreshold(N: int, n: int, costs: Costs, priorModel: string, likelihoodModel: string, invSqrt: real -> real, r: int, x: int)
    requires IsThreshold(N, n, costs, priorModel, likelihoodModel, invSqrt, r)
    requires x in AuditPoints(r, n)
    ensures 1 <= x <= n - 1 && IsInvSqrt(invSqrt) && WellPosed(N, n, priorModel, likelihoodModel)
    ensures AcceptCostAt(N, n, x, costs, priorModel, likelihoodModel, invSqrt) < RealisticExpectedCostReject(costs, N) <==> x <= r
  {
  }
}
