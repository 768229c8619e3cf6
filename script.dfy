/** The command-line tool (script.py): the Jeffreys prior and the hypergeometric likelihood
    are fixed, the support is 0..N with the prior's argument clipped into [1e-10, N - 1e-10],
    and the "improved" cost set has no opportunity cost and no fixed overhead. */
module ImprovedScript {
  import opened Outcomes
  import opened Distributions
  import opened Sampling
  import opened Decisions

  /** The clipping margin 1e-10 that keeps the Jeffreys density finite at M = 0 and M = N. */
  const EPS: real := 0.0000000001

  /** The improved cost set {c, P, R, I, D}. */
  datatype Costs = Costs(
    itemCost: real,         // c: cost per defective item
    penalty: real,          // P: coefficient of the quadratic penalty for defectives
    revenue: real,          // R: revenue per non-defective item
    inspectionCost: real,   // I: cost of inspecting a rejected lot
    delayCost: real)        // D: cost of delay or disruption due to rejection

  // ---------------------------------------------------------------- prior

  /** The candidate defect counts 0..N (np.arange(0, N + 1)); empty when N < 0. */
  function Support(N: int): seq<int>
  {
    seq(if N >= 0 then N + 1 else 0, i => i)
  }

  /** np.clip for a single real: raised to lo, then lowered to hi. */
  function ClipReal(x: real, lo: real, hi: real): real
  {
    var y := if x < lo then lo else x;
    if y > hi then hi else y
  }

  /** After clipping, every count gives a defect rate strictly inside the unit interval; the
      counts 1..N-1 are left as they are, and the clip maps M = 0 and M = N to mirror images. */
  lemma {:induction false} ClippedRate(M: int, N: int)
    requires N >= 1
    ensures 0.0 < ClipReal(M as real, EPS, N as real - EPS) / N as real < 1.0
    ensures 1 <= M <= N - 1 ==> ClipReal(M as real, EPS, N as real - EPS) == M as real
    ensures ClipReal((N - M) as real, EPS, N as real - EPS) == N as real - ClipReal(M as real, EPS, N as real - EPS)
  {
    var x := ClipReal(M as real, EPS, N as real - EPS);
    assert EPS <= x <= N as real - EPS;
    RatioInUnit(x, N as real);
  }

  /** The unnormalised Jeffreys prior at M, after clipping M into [1e-10, N - 1e-10]. */
  function JeffreysWeight(M: int, N: int, invSqrt: real -> real): (r: real)
    requires N >= 1 && IsInvSqrt(invSqrt)
    ensures r > 0.0
  {
    ClippedRate(M, N);
    JeffreysDensityFacts(ClipReal(M as real, EPS, N as real - EPS) / N as real, invSqrt);
    JeffreysDensity(ClipReal(M as real, EPS, N as real - EPS) / N as real, invSqrt)
  }

  /** jeffreys_prior over a support. */
  function JeffreysWeights(Ms: seq<int>, N: int, invSqrt: real -> real): (r: seq<real>)
    requires (N >= 1 || |Ms| == 0) && IsInvSqrt(invSqrt)
    ensures |r| == |Ms| && Positive(r)
  {
    seq(|Ms|, i requires 0 <= i < |Ms| => JeffreysWeight(Ms[i], N, invSqrt))
  }

  /** calculate_jeffreys_prior: the Jeffreys weights divided by their sum, a positive
      distribution in the ratio of the weights. */
  function CalculateJeffreysPrior(Ms: seq<int>, N: int, invSqrt: real -> real): (r: seq<real>)
    requires (N >= 1 || |Ms| == 0) && IsInvSqrt(invSqrt)
    ensures |r| == |Ms| && Positive(r)
    ensures |Ms| > 0 ==> IsDistribution(r)
    ensures Proportional(r, JeffreysWeights(Ms, N, invSqrt))
  {
    var raw := JeffreysWeights(Ms, N, invSqrt);
    if |Ms| == 0 then []
    else
      SumPositive(raw, 0);
      NormalizeIsDistribution(raw);
      NormalizeProportional(raw);
      NormalizePositiveWhere(raw);
      Normalize(raw)
  }

  /** The prior on 0..N is symmetric: M and N - M get the same probability. */
  lemma {:induction false} JeffreysPriorSymmetric(N: int, invSqrt: real -> real, i: int)
    requires N >= 1 && IsInvSqrt(invSqrt) && 0 <= i <= N
    ensures CalculateJeffreysPrior(Support(N), N, invSqrt)[i] == CalculateJeffreysPrior(Support(N), N, invSqrt)[N - i]
  {
    var raw := JeffreysWeights(Support(N), N, invSqrt);
    var t := N as real;
    var x := ClipReal(i as real, EPS, t - EPS);
    ClippedRate(i, N);
    ClippedRate(N - i, N);
    Complement(x, t);
    JeffreysDensityFacts(x / t, invSqrt);
    assert raw[i] == raw[N - i];
  }

  // ---------------------------------------------------------------- posterior

  /** The error calculate_posterior meets whatever m is: when the support 0..N is not empty,
      no defect rate can be formed (N = 0), or the divisor C(N, n) of the likelihood is zero
      (where the floating-point code goes on with NaN).
      An empty support (N < 0) evaluates nothing, so nothing can fail. */
  function SetupError(N: int, n: int): Option<Error>
  {
    if N < 0 then None
    else if N < 1 || !(0 <= n <= N) then Some(InvalidParameters)
    else None
  }

  /** The prior calculate_posterior uses: positive on 0..N, and a distribution when N >= 1. */
  function PriorOf(N: int, invSqrt: real -> real): (r: seq<real>)
    requires N != 0 && IsInvSqrt(invSqrt)
    ensures |r| == |Support(N)| && Positive(r)
    ensures N >= 1 ==> IsDistribution(r)
  {
    CalculateJeffreysPrior(Support(N), N, invSqrt)
  }

  /** likelihood at every M in 0..N: positive exactly where M can explain m in a sample of n.
      An empty support has no likelihoods. */
  function Likelihoods(N: int, n: int, m: int): (r: seq<real>)
    requires N < 0 || (N >= 1 && 0 <= n <= N)
    ensures |r| == |Support(N)| && NonNegative(r)
    ensures forall i :: 0 <= i <= N ==> (r[i] > 0.0 <==> 0 <= m <= i && 0 <= n - m <= N - i)
  {
    seq(|Support(N)|, i requires 0 <= i < |Support(N)| => Hypergeometric(i, m, N, n))
  }

  /** calculate_posterior: likelihood times prior at every M in 0..N, divided by the sum. A
      setup error is reported as such; otherwise the result is the support, the prior and a
      posterior on it, unless every weight is zero (DegeneratePosterior). An empty support
      divides empty arrays: no error, and an empty posterior. What the posterior is, is
      stated by PosteriorIsBayes. */
  function CalculatePosterior(N: int, n: int, m: int, invSqrt: real -> real): (r: Result<PosteriorTable>)
    requires IsInvSqrt(invSqrt)
    ensures SetupError(N, n).Some? ==> r == Failure(InvalidParameters)
    ensures SetupError(N, n).None? && r.Failure? ==> r.error == DegeneratePosterior
    ensures r.Success? ==> SetupError(N, n).None?
    ensures r.Success? ==> r.value.Ms == Support(N) && r.value.prior == PriorOf(N, invSqrt)
    ensures r.Success? ==> |r.value.posterior| == |Support(N)|
    ensures N < 0 ==> r.Success?
  {
    if SetupError(N, n).Some? then Failure(InvalidParameters)
    else
      var prior := PriorOf(N, invSqrt);
      var w := Weights(Likelihoods(N, n, m), prior);
      if N < 0 then Success(PosteriorTable(Support(N), prior, []))
      else if Sum(w) == 0.0 then Failure(DegeneratePosterior)
      else Success(PosteriorTable(Support(N), prior, Normalize(w)))
  }

  /** Bayes' rule, as calculate_posterior applies it: once the setup is sound, a posterior
      exists exactly when some M explains the evidence; it is then a distribution, in the
      ratio of likelihood times prior, and positive exactly where the likelihood is. */
  lemma {:induction false} PosteriorIsBayes(N: int, n: int, m: int, invSqrt: real -> real)
    requires IsInvSqrt(invSqrt) && N >= 1 && SetupError(N, n).None?
    ensures var r := CalculatePosterior(N, n, m, invSqrt);
      r.Failure? <==> forall i :: 0 <= i <= N ==> Likelihoods(N, n, m)[i] == 0.0
    ensures var r := CalculatePosterior(N, n, m, invSqrt);
      r.Success? ==>
        && IsDistribution(r.value.posterior)
        && Proportional(r.value.posterior, Weights(Likelihoods(N, n, m), r.value.prior))
        && SameSupport(r.value.posterior, Likelihoods(N, n, m))
  {
    var prior := PriorOf(N, invSqrt);
    var likes := Likelihoods(N, n, m);
    var w := Weights(likes, prior);
    SumZeroIffAllZero(w);
    assert (forall i :: 0 <= i <= N ==> likes[i] == 0.0) <==> (forall i :: 0 <= i < N + 1 ==> w[i] == 0.0) by {
      assert SameSupport(w, likes);
    }
    if Sum(w) != 0.0 {
      NormalizeIsDistribution(w);
      NormalizeProportional(w);
      NormalizePositiveWhere(w);
      SameSupportTransitive(Normalize(w), w, likes);
    }
  }

  /** With 1 <= m <= n - 1 observed, neither a flawless lot (M = 0) nor an all-defective one
      (M = N) explains the sample, so the posterior puts no mass on either end. */
  lemma {:induction false} EndsExcluded(N: int, n: int, m: int, invSqrt: real -> real)
    requires IsInvSqrt(invSqrt) && N >= 1 && SetupError(N, n).None? && 1 <= m <= n - 1
    ensures CalculatePosterior(N, n, m, invSqrt).Success?
    ensures CalculatePosterior(N, n, m, invSqrt).value.posterior[0] == 0.0
    ensures CalculatePosterior(N, n, m, invSqrt).value.posterior[N] == 0.0
  {
    PosteriorDefinedOnSearchRange(N, n, m, invSqrt);
    PosteriorIsBayes(N, n, m, invSqrt);
    var post := CalculatePosterior(N, n, m, invSqrt).value.posterior;
    assert !(post[0] > 0.0) && !(post[N] > 0.0);
  }

  // ---------------------------------------------------------------- costs

  /** The cost of accepting a lot that holds M defectives: direct and quadratic penalty costs
      of the defectives, less the revenue from the N - M good items. */
  function ImprovedLoss(costs: Costs, N: int, M: int): real
  {
    costs.itemCost * M as real + costs.penalty * (M * M) as real - costs.revenue * (N - M) as real
  }

  /** improved_expected_cost_accept: the posterior expectation of ImprovedLoss. */
  function ImprovedExpectedCostAccept(Ms: seq<int>, posterior: seq<real>, costs: Costs, N: int): real
    requires |Ms| == |posterior|
  {
    Expectation(Ms, posterior, M => ImprovedLoss(costs, N, M))
  }

  /** improved_expected_cost_reject: re-procurement of the lot, inspection and delay. */
  function ImprovedExpectedCostReject(costs: Costs, N: int): real
  {
    N as real * costs.itemCost + costs.inspectionCost + costs.delayCost
  }

  // ---------------------------------------------------------------- threshold search

  /** The inputs for which every m in 1..n-1 has a posterior: 2 <= n <= N, or n >= 2 with an
      empty support. */
  predicate WellPosed(N: int, n: int)
  {
    n >= 2 && SetupError(N, n).None?
  }

  /** Throughout the search range the posterior exists: the support is empty, or M = m
      explains the evidence. */
  lemma {:induction false} PosteriorDefinedOnSearchRange(N: int, n: int, m: int, invSqrt: real -> real)
    requires IsInvSqrt(invSqrt) && WellPosed(N, n) && 1 <= m <= n - 1
    ensures CalculatePosterior(N, n, m, invSqrt).Success?
  {
    if N >= 0 {
      assert Likelihoods(N, n, m)[m] > 0.0;
      PosteriorIsBayes(N, n, m, invSqrt);
    }
  }

  /** The posterior for observed count m, inside the search range. */
  function PosteriorAt(N: int, n: int, m: int, invSqrt: real -> real): seq<real>
    requires IsInvSqrt(invSqrt) && WellPosed(N, n) && 1 <= m <= n - 1
  {
    PosteriorDefinedOnSearchRange(N, n, m, invSqrt);
    CalculatePosterior(N, n, m, invSqrt).value.posterior
  }

  /** The expected accept cost for observed count m, inside the search range. */
  function AcceptCostAt(N: int, n: int, m: int, costs: Costs, invSqrt: real -> real): real
    requires IsInvSqrt(invSqrt) && WellPosed(N, n) && 1 <= m <= n - 1
  {
    PosteriorDefinedOnSearchRange(N, n, m, invSqrt);
    ImprovedExpectedCostAccept(Support(N), PosteriorAt(N, n, m, invSqrt), costs, N)
  }

  /** Accepting is cheaper than rejecting for every observed count in 1..upTo. */
  ghost predicate AcceptedUpTo(N: int, n: int, costs: Costs, invSqrt: real -> real, upTo: int)
  {
    && IsInvSqrt(invSqrt) && WellPosed(N, n) && upTo <= n - 1
    && forall k :: 1 <= k <= upTo ==> AcceptCostAt(N, n, k, costs, invSqrt) < ImprovedExpectedCostReject(costs, N)
  }

  /** r is what the first-crossing scan must report: accepting is cheaper for every m in 1..r,
      and either r = n - 1 or accepting is not cheaper at m = r + 1. */
  ghost predicate IsThreshold(N: int, n: int, costs: Costs, invSqrt: real -> real, r: int)
  {
    && 0 <= r
    && AcceptedUpTo(N, n, costs, invSqrt, r)
    && (r < n - 1 ==> AcceptCostAt(N, n, r + 1, costs, invSqrt) >= ImprovedExpectedCostReject(costs, N))
  }

  /** One more count where accepting is cheaper extends the accepted range. */
  lemma {:induction false} AcceptedExtend(N: int, n: int, costs: Costs, invSqrt: real -> real, m: int)
    requires IsInvSqrt(invSqrt) && WellPosed(N, n) && 1 <= m <= n - 1
    requires m == 1 || AcceptedUpTo(N, n, costs, invSqrt, m - 1)
    requires AcceptCostAt(N, n, m, costs, invSqrt) < ImprovedExpectedCostReject(costs, N)
    ensures AcceptedUpTo(N, n, costs, invSqrt, m)
  {
  }

  /** The scan's two ways out: a crossing at m makes m - 1 the threshold, and running off the
      end with every count accepted makes n - 1 the threshold. */
  lemma {:induction false} ThresholdFound(N: int, n: int, costs: Costs, invSqrt: real -> real, m: int)
    requires IsInvSqrt(invSqrt) && WellPosed(N, n) && 1 <= m <= n
    requires m == 1 || AcceptedUpTo(N, n, costs, invSqrt, m - 1)
    requires m < n ==> AcceptCostAt(N, n, m, costs, invSqrt) >= ImprovedExpectedCostReject(costs, N)
    ensures IsThreshold(N, n, costs, invSqrt, m - 1)
  {
  }

  /** The posteriors of m = 1..count, each paired with its m, in increasing order of m. */
  function Evaluated(N: int, n: int, invSqrt: real -> real, count: int): (r: seq<(int, seq<real>)>)
    requires IsInvSqrt(invSqrt) && WellPosed(N, n) && 0 <= count <= n - 1
    ensures |r| == count
    ensures forall k :: 0 <= k < count ==> r[k] == (k + 1, PosteriorAt(N, n, k + 1, invSqrt))
    decreases count
  {
    if count == 0 then []
    else Evaluated(N, n, invSqrt, count - 1) + [(count, PosteriorAt(N, n, count, invSqrt))]
  }

  /** The state of the scan before count m: nothing computed yet when m = 1; otherwise every
      count in 1..m-1 was accepted, the last table is over the support with the prior, and the
      posteriors of 1..m-1 were collected in order. */
  ghost predicate Scanned(N: int, n: int, costs: Costs, invSqrt: real -> real,
                          m: int, last: Option<PosteriorTable>, allPosteriors: seq<(int, seq<real>)>)
  {
    && 1 <= m && (m == 1 || m <= n)
    && (m == 1 ==> last == None && allPosteriors == [])
    && (m > 1 ==>
          && AcceptedUpTo(N, n, costs, invSqrt, m - 1)
          && last.Some? && last.value.Ms == Support(N) && last.value.prior == PriorOf(N, invSqrt)
          && allPosteriors == Evaluated(N, n, invSqrt, m - 1))
  }

  /** One pass of the scan at count m: the posterior of m joins the collected ones; if
      accepting is cheaper the scan goes on to m + 1, otherwise m - 1 is the threshold. */
  lemma {:induction false} ScanStep(N: int, n: int, costs: Costs, invSqrt: real -> real,
                                    m: int, last: Option<PosteriorTable>, allPosteriors: seq<(int, seq<real>)>,
                                    table: PosteriorTable, accept: real)
    requires IsInvSqrt(invSqrt) && WellPosed(N, n) && 1 <= m <= n - 1
    requires Scanned(N, n, costs, invSqrt, m, last, allPosteriors)
    requires table.Ms == Support(N) && table.prior == PriorOf(N, invSqrt)
    requires table.posterior == PosteriorAt(N, n, m, invSqrt)
    requires accept == AcceptCostAt(N, n, m, costs, invSqrt)
    ensures allPosteriors + [(m, table.posterior)] == Evaluated(N, n, invSqrt, m)
    ensures accept < ImprovedExpectedCostReject(costs, N) ==>
      Scanned(N, n, costs, invSqrt, m + 1, Some(table), allPosteriors + [(m, table.posterior)])
    ensures accept >= ImprovedExpectedCostReject(costs, N) ==> IsThreshold(N, n, costs, invSqrt, m - 1)
  {
    if accept < ImprovedExpectedCostReject(costs, N) {
      AcceptedExtend(N, n, costs, invSqrt, m);
    } else {
      ThresholdFound(N, n, costs, invSqrt, m);
    }
  }

  /** A scan that runs off the end, having evaluated something, accepted every count in
      1..n-1: n - 1 is the threshold and the posteriors of all of 1..n-1 were collected. */
  lemma {:induction false} ScanEnd(N: int, n: int, costs: Costs, invSqrt: real -> real,
                                   m: int, last: Option<PosteriorTable>, allPosteriors: seq<(int, seq<real>)>)
    requires IsInvSqrt(invSqrt) && m >= n && last.Some?
    requires Scanned(N, n, costs, invSqrt, m, last, allPosteriors)
    ensures m == n && WellPosed(N, n)
    ensures IsThreshold(N, n, costs, invSqrt, m - 1)
    ensures allPosteriors == Evaluated(N, n, invSqrt, Min(m, n - 1))
  {
    ThresholdFound(N, n, costs, invSqrt, m);
  }

  /** One pass of the loop of find_max_acceptable_m_improved, for a count m in 1..n-1: the
      posterior table at m and the expected accept cost under it. It fails exactly when the
      setup is unsound. */
  method SearchStep(N: int, n: int, m: int, costs: Costs, invSqrt: real -> real) returns (res: Result<(PosteriorTable, real)>)
    requires IsInvSqrt(invSqrt) && 1 <= m <= n - 1
    ensures SetupError(N, n).Some? ==> res == Failure(InvalidParameters)
    ensures SetupError(N, n).None? ==>
      && WellPosed(N, n) && res.Success?
      && res.value.0.Ms == Support(N) && res.value.0.prior == PriorOf(N, invSqrt)
      && res.value.0.posterior == PosteriorAt(N, n, m, invSqrt)
      && res.value.1 == AcceptCostAt(N, n, m, costs, invSqrt)
  {
    ghost var wellPosed := WellPosed(N, n);
    if wellPosed {
      PosteriorDefinedOnSearchRange(N, n, m, invSqrt);
    }
    var table := CalculatePosterior(N, n, m, invSqrt);
    if table.Failure? {
      return Failure(table.error);
    }
    var accept := ImprovedExpectedCostAccept(table.value.Ms, table.value.posterior, costs, N);
    res := Success((table.value, accept));
  }

  /** find_max_acceptable_m_improved: scan m = 1, 2, ... while m < n and stop at the first m
      whose expected accept cost is not below the reject cost; report m - 1. When n <= 1 the
      loop never runs and the source has no distributions to return (NothingEvaluated); an
      unsound setup surfaces at the first posterior. Otherwise the result is the threshold,
      the support, the prior and the posteriors of m = 1..min(threshold + 1, n - 1). */
  method FindMaxAcceptableM(N: int, n: int, costs: Costs, invSqrt: real -> real) returns (res: Result<SearchOutcome>)
    requires IsInvSqrt(invSqrt)
    ensures n < 2 ==> res == Failure(NothingEvaluated)
    ensures n >= 2 && SetupError(N, n).Some? ==> res == Failure(InvalidParameters)
    ensures WellPosed(N, n) ==> res.Success?
    ensures res.Success? ==>
      && WellPosed(N, n)
      && IsThreshold(N, n, costs, invSqrt, res.value.threshold)
      && res.value.Ms == Support(N)
      && res.value.prior == PriorOf(N, invSqrt)
      && res.value.posteriors == Evaluated(N, n, invSqrt, Min(res.value.threshold + 1, n - 1))
  {
    var reject := ImprovedExpectedCostReject(costs, N);
    var m := 1;
    var allPosteriors: seq<(int, seq<real>)> := [];
    var last: Option<PosteriorTable> := None;
    while m < n
      invariant Scanned(N, n, costs, invSqrt, m, last, allPosteriors)
    {
      var step := SearchStep(N, n, m, costs, invSqrt);
      if step.Failure? {
        return Failure(step.error);
      }
      var table, accept := step.value.0, step.value.1;
      ScanStep(N, n, costs, invSqrt, m, last, allPosteriors, table, accept);
      last := Some(table);
      allPosteriors := allPosteriors + [(m, table.posterior)];
      if accept >= reject {
        break;
      }
      m := m + 1;
    }
    if last.None? {
      return Failure(NothingEvaluated);
    }
    if m >= n {
      ScanEnd(N, n, costs, invSqrt, m, last, allPosteriors);
    }
    res := Success(SearchOutcome(m - 1, last.value.Ms, last.value.prior, allPosteriors));
  }

  // ---------------------------------------------------------------- audit window

  /** One audit line for count x is right: it carries x, the expected accept cost at x, the
      reject cost, and the decision Accept exactly when accepting is cheaper. */
  ghost predicate AuditLine(N: int, n: int, costs: Costs, invSqrt: real -> real, x: int, detail: CostDetail)
  {
    && IsInvSqrt(invSqrt) && WellPosed(N, n) && 1 <= x <= n - 1
    && detail.m == x
    && detail.acceptCost == AcceptCostAt(N, n, x, costs, invSqrt)
    && detail.rejectCost == ImprovedExpectedCostReject(costs, N)
    && (detail.decision == Accept <==> detail.acceptCost < detail.rejectCost)
  }

  /** The audit lines are right for the counts W, line by line. */
  ghost predicate AuditLines(N: int, n: int, costs: Costs, invSqrt: real -> real, W: seq<int>, details: seq<CostDetail>)
  {
    |details| == |W| && forall k :: 0 <= k < |W| ==> AuditLine(N, n, costs, invSqrt, W[k], details[k])
  }

  /** The state of the audit loop after the first j candidates. */
  ghost predicate AuditedSoFar(N: int, n: int, costs: Costs, invSqrt: real -> real, mStar: int, j: nat, details: seq<CostDetail>)
  {
    && (SetupError(N, n).Some? ==> Candidates(mStar, n, j) == [])
    && AuditLines(N, n, costs, invSqrt, Candidates(mStar, n, j), details)
  }

  /** A candidate outside 1..n-1 adds no line. */
  lemma {:induction false} AuditSkip(N: int, n: int, costs: Costs, invSqrt: real -> real, mStar: int, j: nat, details: seq<CostDetail>)
    requires AuditedSoFar(N, n, costs, invSqrt, mStar, j, details)
    requires !(1 <= mStar - 1 + j < n)
    ensures AuditedSoFar(N, n, costs, invSqrt, mStar, j + 1, details)
  {
    assert Candidates(mStar, n, j + 1) == Candidates(mStar, n, j);
  }

  /** A valid candidate adds its right line. */
  lemma {:induction false} AuditAppend(N: int, n: int, costs: Costs, invSqrt: real -> real, mStar: int, j: nat,
                                       details: seq<CostDetail>, detail: CostDetail)
    requires AuditedSoFar(N, n, costs, invSqrt, mStar, j, details)
    requires AuditLine(N, n, costs, invSqrt, mStar - 1 + j, detail)
    ensures AuditedSoFar(N, n, costs, invSqrt, mStar, j + 1, details + [detail])
  {
    var W, W' := Candidates(mStar, n, j), Candidates(mStar, n, j + 1);
    assert W' == W + [mStar - 1 + j];
    forall k | 0 <= k < |W'|
      ensures AuditLine(N, n, costs, invSqrt, W'[k], (details + [detail])[k])
    {
      if k < |W| {
        assert W'[k] == W[k] && (details + [detail])[k] == details[k];
      }
    }
  }

  /** One pass of the audit loop of print_costs_around_m_improved, for a count x in 1..n-1:
      both expected costs and the decision. It fails exactly when the setup is unsound. */
  method AuditLineAt(N: int, n: int, costs: Costs, x: int, invSqrt: real -> real) returns (res: Result<CostDetail>)
    requires IsInvSqrt(invSqrt) && 1 <= x <= n - 1
    ensures SetupError(N, n).Some? ==> res == Failure(InvalidParameters)
    ensures SetupError(N, n).None? ==> res.Success? && AuditLine(N, n, costs, invSqrt, x, res.value)
  {
    ghost var wellPosed := WellPosed(N, n);
    if wellPosed {
      PosteriorDefinedOnSearchRange(N, n, x, invSqrt);
    }
    var table := CalculatePosterior(N, n, x, invSqrt);
    if table.Failure? {
      return Failure(table.error);
    }
    var accept := ImprovedExpectedCostAccept(table.value.Ms, table.value.posterior, costs, N);
    var reject := ImprovedExpectedCostReject(costs, N);
    res := Success(CostDetail(x, accept, reject, if accept < reject then Accept else Reject));
  }

  /** print_costs_around_m_improved: for each audited count, both expected costs and the
      decision. Candidates outside 1..n-1 are skipped without evaluating anything. */
  method CostsAroundM(N: int, n: int, costs: Costs, mStar: int, invSqrt: real -> real) returns (res: Result<seq<CostDetail>>)
    requires IsInvSqrt(invSqrt)
    ensures AuditPoints(mStar, n) == [] ==> res == Success([])
    ensures AuditPoints(mStar, n) != [] && SetupError(N, n).Some? ==> res == Failure(InvalidParameters)
    ensures AuditPoints(mStar, n) != [] && SetupError(N, n).None? ==> res.Success?
    ensures res.Success? ==> AuditLines(N, n, costs, invSqrt, AuditPoints(mStar, n), res.value)
  {
    var details: seq<CostDetail> := [];
    for j := 0 to 3
      invariant AuditedSoFar(N, n, costs, invSqrt, mStar, j, details)
    {
      var x := mStar - 1 + j;
      if x < 1 || x >= n {
        AuditSkip(N, n, costs, invSqrt, mStar, j, details);
        continue;
      }
      var line := AuditLineAt(N, n, costs, x, invSqrt);
      if line.Failure? {
        assert x in AuditPoints(mStar, n);
        return Failure(line.error);
      }
      AuditAppend(N, n, costs, invSqrt, mStar, j, details, line.value);
      details := details + [line.value];
    }
    assert Candidates(mStar, n, 3) == AuditPoints(mStar, n);
    res := Success(details);
  }

  /** Around a threshold r reported by the search, the audit labels a count Accept exactly
      when it is at most r. */
  lemma {:induction false} AuditAgreesWithThreshold(N: int, n: int, costs: Costs, invSqrt: real -> real, r: int, x: int)
    requires IsThreshold(N, n, costs, invSqrt, r)
    requires x in AuditPoints(r, n)
    ensures 1 <= x <= n - 1 && IsInvSqrt(invSqrt) && WellPosed(N, n)
    ensures AcceptCostAt(N, n, x, costs, invSqrt) < ImprovedExpectedCostReject(costs, N) <==> x <= r
  {
  }
}
