# Bayesian acceptance sampling, modelled in Dafny

An inspector samples `n` items from a lot of `N` and finds `m` defectives. The engine
builds a posterior over the lot's true defect count `M` from:

- a prior: Jeffreys or uniform;
- a likelihood: hypergeometric, i.e. sampling without replacement, or binomial, i.e. with
  replacement.

It then compares, for each observed count `m`, the posterior expected cost of accepting the
lot with the fixed cost of rejecting it. The threshold search scans `m = 1, 2, ...` and
reports the largest `m*` up to which accepting stays cheaper. An audit window re-evaluates
`m* - 1`, `m*` and `m* + 1`.

The engine exists in two front ends, and both are modelled:

- **`BayesianQC`** (BQC.py) is the general engine of the GUI tool. The prior and the
  likelihood are chosen by name. The support is `1..N-1`, and Jeffreys clips `M` into
  `[1, N-1]` as an integer. It uses the "realistic" cost set `{c, O, P, R, F, I, D}`.
- **`ImprovedScript`** (script.py) is the command-line tool. It always uses Jeffreys and the
  hypergeometric likelihood. The support is `0..N`, clipped by `1e-10` as a real number. It
  uses the "improved" cost set `{c, P, R, I, D}`.

The shared modules are:

- `Outcomes`: the error conditions and `Result`.
- `Combinatorics`: `Comb` with scipy's zero-outside-range convention, and `Pow`.
- `Sampling`: the two likelihoods, and the Jeffreys density over an abstract `x^(-1/2)`.
- `Distributions`: sums, normalisation, proportionality and expectations.
- `Decisions`: the result shapes and the audit window.

`SupportEquivalence` answers whether the two front ends agree. For `1 <= m <= n - 1 <= N - 1`:

- the script's posterior on `0..N` is the engine's Jeffreys/hypergeometric posterior on
  `1..N-1`, with a zero added at each end;
- the improved costs are the realistic costs with `O = F = 0`.

So both searches characterise the same threshold, and each reports the same `m*` as the other.

Pure code (priors, likelihoods, posterior, costs) is written as functions with lemmas. The two
search loops and the two audit loops are methods with `while`/`for` loops. Each such method is
proved against ghost specifications:

- `IsThreshold`: the first-crossing characterisation;
- `Evaluated`: the posteriors collected so far;
- `AuditLines`: every audit line correct.

## Model

| member | source | states |
|---|---|---|
| Combinatorics.Comb | BQC.py:30 | C(n, k) is positive exactly when 0 <= k <= n and zero otherwise, as scipy's `comb` returns for an out-of-range argument |
| Combinatorics.ConvolutionStep | BQC.py:30 | adding one item to the first group splits the convolution sum of C(a, m) * C(b, n - m) into the sums for n - 1 and n |
| Combinatorics.Vandermonde | BQC.py:30 | Vandermonde's identity: the sum over m = 0..n of C(a, m) * C(b, n - m) is C(a + b, n), i.e. the numerators of the hypergeometric likelihood add up to its divisor |
| Combinatorics.Pow | BQC.py:34 | p**k is positive for a positive base, nonnegative for a nonnegative one, and 1 at exponent 0 |
| Sampling.Hypergeometric | BQC.py:29-30 | the hypergeometric likelihood is nonnegative and is exactly zero when m > M, m < 0, n - m > N - M or n - m < 0 |
| Sampling.HypergeometricMassCounts | BQC.py:29-30 | the hypergeometric probabilities of m = 0..k-1 add up to the partial convolution divided by C(N, n) |
| Sampling.HypergeometricSumsToOne | BQC.py:29-30 | for 0 <= M <= N and 0 <= n <= N, the likelihoods of m = 0, 1, ..., n defectives add up to exactly 1 |
| Sampling.JeffreysDensity | BQC.py:10 | definition, (p)^(-1/2) * (1 - p)^(-1/2) over the abstract power; its properties are in JeffreysDensityFacts |
| Sampling.Binomial | BQC.py:32-34 | the binomial likelihood is nonnegative for 0 <= M <= N, and for 0 < M < N it is positive exactly when 0 <= m <= n |
| Sampling.DefectRate | BQC.py:33 | the rate p = M / N lies in [0, 1], and strictly inside it when 0 < M < N |
| Sampling.JeffreysDensityFacts | BQC.py:10 | inside (0, 1) the Jeffreys density is positive, its square is 1/(p(1-p)), and it is symmetric under p -> 1 - p |
| Distributions.Sum | BQC.py:51 | definition of np.sum; its properties are in SumZeroIffAllZero and NormalizeIsDistribution |
| Distributions.Normalize | BQC.py:51 | definition, each weight divided by the total; what it yields is in NormalizeIsDistribution, NormalizeProportional and NormalizePositiveWhere |
| Distributions.Scaled | script.py:13 | definition, every weight times a common factor; used by NormalizeScaleInvariant to compare the two Jeffreys normalisations |
| Distributions.Expectation | BQC.py:56 | definition of the posterior-weighted np.sum of a cost; its properties are in ExpectationBetween, ExpectationShift, ExpectationPointMass, ExpectationCongruent and ExpectationPadded |
| Distributions.Weights | BQC.py:50 | likelihood times a positive prior is nonnegative and positive exactly where the likelihood is |
| Distributions.SumZeroIffAllZero | BQC.py:51 | nonnegative weights sum to zero exactly when every weight is zero, which is when the normalisation would divide by zero |
| Distributions.NormalizeIsDistribution | BQC.py:51 | nonnegative weights with a nonzero total become nonnegative values summing to 1 once divided by their sum |
| Distributions.NormalizeProportional | BQC.py:51 | dividing by the sum keeps every ratio between weights |
| Distributions.NormalizePositiveWhere | BQC.py:51 | after normalisation an entry is positive exactly where its weight was |
| Distributions.NormalizeScaleInvariant | script.py:26 | a positive common factor on all weights does not change the normalised result |
| Distributions.NormalizePadded | script.py:26 | zero weights added at both ends leave the sum unchanged and normalise to zeros at both ends |
| Distributions.ExpectationBetween | BQC.py:56 | under a distribution the posterior-weighted sum of a cost lies between its least and greatest value on the support |
| Distributions.ExpectationShift | BQC.py:56 | adding a constant to the cost adds that constant times the total mass |
| Distributions.ExpectationPointMass | BQC.py:56 | a posterior certain of one point gives that point's cost |
| Distributions.ExpectationCongruent | script.py:31 | costs equal on the support have equal expectations |
| Distributions.ExpectationPadded | script.py:31 | support points of probability zero added at the ends do not change the expectation |
| Decisions.Candidates | BQC.py:93-95 | the valid counts among the first j of m*-1, m*, m*+1: increasing, in 1..n-1, and containing each such count |
| Decisions.AuditPoints | BQC.py:93-95 | the audit window holds at most 3 counts, all from {m*-1, m*, m*+1} and in 1..n-1, strictly increasing, and every such count is in it |
| BayesianQC.Support | BQC.py:45 | definition of np.arange(1, N), the counts 1..N-1 (empty when N < 2); SupportPadded relates it to the script's support |
| BayesianQC.Clip | BQC.py:9 | definition of np.clip for one integer; JeffreysWeight states what the clipped weight is |
| BayesianQC.JeffreysWeight | BQC.py:8-10 | after clipping M into [1, N-1], the Jeffreys weight is positive for every M |
| BayesianQC.JeffreysWeights | BQC.py:24 | the raw Jeffreys values over any support are positive, one per point |
| BayesianQC.UniformPrior | BQC.py:12-13 | the flat prior has one entry per point, each positive for N >= 2, summing to exactly 1 on the N-1 points of 1..N-1 |
| BayesianQC.CalculateJeffreysPrior | BQC.py:23-26 | the normalised Jeffreys prior is positive, sums to 1 on a nonempty support, and is in the ratio of the raw Jeffreys values |
| BayesianQC.CalculatePrior | BQC.py:15-21 | fails with UnknownPriorModel exactly when the name is neither "Jeffreys" nor "Uniform", even on an empty support; otherwise positive, and a distribution on 1..N-1 when N >= 2 |
| BayesianQC.JeffreysPriorSymmetric | BQC.py:8-10 | the Jeffreys prior on 1..N-1 gives M and N - M the same probability |
| BayesianQC.CalculateLikelihood | BQC.py:36-42 | an unknown name fails with UnknownLikelihoodModel; hypergeometric succeeds iff C(N, n) is nonzero and is zero exactly out of range; binomial succeeds iff N is nonzero and for 0 < M < N is positive iff 0 <= m <= n |
| BayesianQC.SetupError | BQC.py:44-48 | definition of the error calculate_posterior meets first, in the order the source evaluates prior, then likelihood; CalculatePosterior, FindMaxAcceptableM and CostsAroundM state that they return it |
| BayesianQC.PriorOf | BQC.py:45-46 | the prior the posterior uses has one positive entry per M in 1..N-1, and sums to 1 when N >= 2 |
| BayesianQC.Likelihoods | BQC.py:48 | one nonnegative likelihood per M in 1..N-1 (none when N < 2); hypergeometric positive exactly where M can explain m, binomial positive everywhere iff 0 <= m <= n |
| BayesianQC.CalculatePosterior | BQC.py:44-53 | the setup error is returned as such: an unknown prior, or for N >= 2 an unknown likelihood or C(N, n) = 0; other failures are DegeneratePosterior; with a known prior an empty support (N < 2) succeeds; success returns the support 1..N-1, the prior and one posterior value per support point |
| BayesianQC.PosteriorIsBayes | BQC.py:44-53 | with a sound setup and N >= 2 the posterior fails exactly when every likelihood is zero; otherwise it sums to 1, is in the ratio of likelihood times prior, and is positive exactly where the likelihood is |
| BayesianQC.AcceptLoss | BQC.py:56 | definition of the per-lot accept cost c·M + O·M + P·M² − R·(N − M) + F; OverheadShift and LossAgrees state its properties |
| BayesianQC.RealisticExpectedCostAccept | BQC.py:55-56 | definition, the posterior expectation of AcceptLoss; AcceptCostIsExpectedLoss, AcceptCostOfKnownLot and FixedCostCancels state its properties |
| BayesianQC.RealisticExpectedCostReject | BQC.py:58-60 | definition, I + N·c + D + F, independent of the posterior; FixedCostCancels and CostsAgree state its properties |
| BayesianQC.AcceptCostIsExpectedLoss | BQC.py:55-56 | the expected accept cost lies between the least and greatest per-lot accept cost on the support |
| BayesianQC.AcceptCostOfKnownLot | BQC.py:55-56 | a posterior certain of M makes the expected accept cost the accept cost of M |
| BayesianQC.OverheadShift | BQC.py:56 | the overhead F enters the per-lot accept cost as a plain summand |
| BayesianQC.FixedCostCancels | BQC.py:55-60 | F is paid on both decisions, so accept minus reject does not depend on F |
| BayesianQC.PosteriorDefinedOnSearchRange | BQC.py:65-66 | for every m in 1..n-1 with a sound setup the posterior exists |
| BayesianQC.AcceptedExtend | BQC.py:70-72 | a further count where accepting is cheaper extends the accepted range by one |
| BayesianQC.ThresholdFound | BQC.py:70-73 | stopping at m, by a crossing or because m reached n, makes m - 1 the first-crossing threshold |
| BayesianQC.EmptySupportThreshold | BQC.py:62-73 | for N < 2 and a known prior every expected accept cost is 0, so the threshold is n - 1 when the reject cost is positive and 0 otherwise |
| BayesianQC.ThresholdUnique | BQC.py:62-73 | the first-crossing threshold is unique, so the costs alone determine the reported m* |
| BayesianQC.Evaluated | BQC.py:64-67 | the collected posteriors are the pairs (k, posterior at k) for k = 1..count, in increasing order |
| BayesianQC.SearchStep | BQC.py:66-69 | one pass fails with the setup error if there is one; otherwise it yields the support, the prior, the posterior at m and the accept cost at m |
| BayesianQC.ScanStep | BQC.py:65-72 | after one pass the collected posteriors are those of 1..m; a cheaper accept continues the scan, otherwise m - 1 is the threshold |
| BayesianQC.ScanEnd | BQC.py:65-73 | a scan that reaches m = n makes n - 1 the threshold and has collected the posteriors of 1..n-1 |
| BayesianQC.FindMaxAcceptableM | BQC.py:62-73 | n < 2 gives NothingEvaluated; a setup error is returned; otherwise it succeeds with the first-crossing threshold r in 0..n-1, the support, the prior, and the posteriors of m = 1..min(r+1, n-1) in order |
| BayesianQC.AuditLinesAppend | BQC.py:97-100 | a correct line appended to correct lines keeps every line correct |
| BayesianQC.AuditLineAt | BQC.py:96-100 | one audit pass fails with the setup error; otherwise it yields x's posterior, both costs, and Accept exactly when accepting is cheaper |
| BayesianQC.AuditSkip | BQC.py:94-95 | a candidate outside 1..n-1 adds no line |
| BayesianQC.AuditAppend | BQC.py:96-100 | a valid candidate adds its correct line and posterior |
| BayesianQC.CostsAroundM | BQC.py:90-101 | an empty window gives no lines even with an unsound setup; a nonempty window fails with the setup error or yields, for each audited count in order, its posterior, both costs and the right label |
| BayesianQC.AuditAgreesWithThreshold | BQC.py:93-100 | around a threshold r the audit labels a count Accept exactly when it is at most r |
| ImprovedScript.Support | script.py:20 | definition of np.arange(0, N + 1), the counts 0..N (empty when N < 0); SupportPadded relates it to the engine's support |
| ImprovedScript.ClipReal | script.py:8 | definition of np.clip for one real, raised to the lower bound and then lowered to the upper; ClippedRate states its properties |
| ImprovedScript.ClippedRate | script.py:8 | after the 1e-10 clip every M gives a rate strictly inside (0, 1); counts 1..N-1 are unchanged; M and N - M map to mirror images |
| ImprovedScript.JeffreysWeight | script.py:6-9 | the clipped Jeffreys weight is positive for every M, including 0 and N |
| ImprovedScript.JeffreysWeights | script.py:12 | the raw Jeffreys values over any support are positive, one per point |
| ImprovedScript.CalculateJeffreysPrior | script.py:11-14 | the normalised prior is positive, sums to 1 on a nonempty support, and is in the ratio of the raw values |
| ImprovedScript.JeffreysPriorSymmetric | script.py:6-9 | the prior on 0..N gives M and N - M the same probability |
| ImprovedScript.SetupError | script.py:19-23 | definition of the error every posterior of the script meets: N = 0, or C(N, n) = 0 on a nonempty support; CalculatePosterior, FindMaxAcceptableM and CostsAroundM state that they return it |
| ImprovedScript.PriorOf | script.py:20-21 | the prior has one positive entry per M in 0..N, and sums to 1 when N >= 1 |
| ImprovedScript.Likelihoods | script.py:23 | one nonnegative likelihood per M in 0..N (none when N < 0), positive exactly where M can explain m in a sample of n |
| ImprovedScript.CalculatePosterior | script.py:19-28 | N = 0 or, for N >= 1, C(N, n) = 0 fails with InvalidParameters; other failures are DegeneratePosterior; an empty support (N < 0) succeeds; success returns the support 0..N, the prior and one posterior value per support point |
| ImprovedScript.PosteriorIsBayes | script.py:19-28 | with a sound setup and N >= 1 the posterior fails exactly when every likelihood is zero; otherwise it sums to 1, is in the ratio of likelihood times prior, and is positive exactly where the likelihood is |
| ImprovedScript.EndsExcluded | script.py:20-26 | with 1 <= m <= n - 1 and a sound setup the posterior exists and puts no mass on M = 0 or M = N |
| ImprovedScript.ImprovedLoss | script.py:31 | definition of the per-lot accept cost c·M + P·M² − R·(N − M); LossAgrees relates it to the engine's |
| ImprovedScript.ImprovedExpectedCostAccept | script.py:30-31 | definition, the posterior expectation of ImprovedLoss; CostsAgree states it is the engine's accept cost with O = F = 0 |
| ImprovedScript.ImprovedExpectedCostReject | script.py:33-34 | definition, N·c + I + D, independent of the posterior; CostsAgree states it is the engine's reject cost with F = 0 |
| ImprovedScript.PosteriorDefinedOnSearchRange | script.py:39-40 | for every m in 1..n-1 with 2 <= n <= N, or with an empty support, the posterior exists |
| ImprovedScript.AcceptedExtend | script.py:44-46 | a further count where accepting is cheaper extends the accepted range by one |
| ImprovedScript.ThresholdFound | script.py:44-47 | stopping at m, by a crossing or because m reached n, makes m - 1 the first-crossing threshold |
| ImprovedScript.Evaluated | script.py:38-41 | the collected posteriors are the pairs (k, posterior at k) for k = 1..count, in increasing order |
| ImprovedScript.SearchStep | script.py:40-43 | one pass fails with InvalidParameters on an unsound setup; otherwise it yields the support, the prior, the posterior at m and the accept cost at m |
| ImprovedScript.ScanStep | script.py:39-46 | after one pass the collected posteriors are those of 1..m; a cheaper accept continues the scan, otherwise m - 1 is the threshold |
| ImprovedScript.ScanEnd | script.py:39-47 | a scan that reaches m = n makes n - 1 the threshold and has collected the posteriors of 1..n-1 |
| ImprovedScript.FindMaxAcceptableM | script.py:36-47 | n < 2 gives NothingEvaluated; an unsound setup gives InvalidParameters; otherwise it succeeds with the first-crossing threshold r in 0..n-1, the support 0..N, the prior, and the posteriors of m = 1..min(r+1, n-1) in order |
| ImprovedScript.AuditSkip | script.py:72-73 | a candidate outside 1..n-1 adds no line |
| ImprovedScript.AuditAppend | script.py:74-83 | a valid candidate adds its correct line |
| ImprovedScript.AuditLineAt | script.py:74-83 | one audit pass fails on an unsound setup; otherwise it yields both costs and Accept exactly when accepting is cheaper |
| ImprovedScript.CostsAroundM | script.py:70-83 | an empty window gives no lines; a nonempty one fails on an unsound setup or yields, for each audited count in order, both costs and the right decision |
| ImprovedScript.AuditAgreesWithThreshold | script.py:71-83 | around a threshold r the audit decides Accept exactly for the counts at most r |
| SupportEquivalence.LossAgrees | script.py:31 | the improved per-lot accept cost is the realistic one with O = F = 0 |
| SupportEquivalence.CostsAgree | script.py:30-34 | on any posterior, both improved costs equal the realistic ones with O = F = 0 |
| SupportEquivalence.SupportPadded | script.py:20 | the support 0..N is 1..N-1 with 0 added in front and N at the end |
| SupportEquivalence.JeffreysShift | script.py:8-9 | on 1..N-1 the real 1e-10 clip and the integer [1, N-1] clip give the same Jeffreys weight |
| SupportEquivalence.PriorShift | script.py:11-14 | on 1..N-1 the two Jeffreys priors are the same weights divided by the two totals |
| SupportEquivalence.LikelihoodShift | script.py:23 | on 1..N-1 the two hypergeometric likelihoods coincide |
| SupportEquivalence.WeightShift | script.py:25 | on 1..N-1 a script weight is the engine's times the positive ratio of the Jeffreys totals |
| SupportEquivalence.WeightsPadded | script.py:25 | the script's weights are the engine's, scaled by a positive constant, with a zero at each end |
| SupportEquivalence.PosteriorPadded | script.py:19-28 | for 1 <= m <= n - 1 <= N - 1 the script's posterior is the engine's Jeffreys/hypergeometric posterior with a zero at each end |
| SupportEquivalence.AcceptCostsAgree | script.py:42 | at every count of the search range both tools compute the same expected accept cost |
| SupportEquivalence.ThresholdsAgree | script.py:36-47 | on every lot of N >= 2 items, r is the script's first-crossing threshold exactly when it is the engine's (Jeffreys, hypergeometric, O = F = 0) |
| SupportEquivalence.SameThreshold | script.py:36-47 | on every lot of N >= 2 items the two tools report the same maximum acceptable count |

## Where the model follows the code

- `n < 1`, `n > N` and `m` outside `[0, n]` are not rejected up front.
  - With the binomial model they are simply evaluated, as in the code.
  - With the hypergeometric model, `n` outside `0..N` makes `C(N, n) = 0`. The code then
    divides by zero in floating point and carries on with NaN. The model instead reports
    `InvalidParameters`, a deliberate departure (see "Left out").
- A lot too small for a support is not an error. For `N < 2` the engine's support `1..N-1`
  is empty, and for `N < 0` so is the script's `0..N`. numpy then divides empty arrays by
  zero without complaint, so the code produces an empty prior, an empty posterior and an
  expected accept cost of 0. The model does the same.
  - Only an unknown prior name is still detected, because the prior is dispatched before
    anything is evaluated. No likelihood is evaluated, so an unknown likelihood name goes
    unnoticed.
  - `BayesianQC.EmptySupportThreshold` states the resulting threshold.
  - For the script, `N = 0` gives the support `[0]`, and its Jeffreys weight divides by zero.
    The code carries on with NaN; the model reports `InvalidParameters`, the same deliberate
    departure.
- `N = 2, n = 1` (and any `n <= 1`) leaves the search loop without a single pass. The code
  then returns unbound variables, which is an error at run time. The model reports
  `NothingEvaluated`.
- The engine's Jeffreys prior clips `M` into `[1, N-1]` as an integer. Only the command-line
  tool clips by `1e-10`.
- Unknown prior and unknown likelihood names are two distinct errors, `UnknownPriorModel` and
  `UnknownLikelihoodModel`, as the code raises two different messages.
- The uniform prior is `1/(N-1)` at each point, which is `1/|support|` only on `1..N-1`.

## Left out

- The tkinter GUI, form parsing, default values and the globals written by `update_values`:
  user interface with no decision logic.
- Plotting, `argparse` and `main`: presentation only.
- The `print` calls of `print_costs_around_m_improved`: the model returns the lines it would
  print.
- Floating point: all arithmetic is exact over `real`. Rounding, `inf` and NaN are not
  modelled. A division by zero is reported as an error (`InvalidParameters` or
  `DegeneratePosterior`) instead of producing `inf` or NaN.
- BayesianQC.FindMaxAcceptableM, ImprovedScript.FindMaxAcceptableM, BayesianQC.CostsAroundM
  and ImprovedScript.CostsAroundM: on a nonempty support with a zero divisor `C(N, n)`, or
  with the script's `N = 0`, they return `InvalidParameters`. The source returns no error
  there: its posteriors are NaN, every `accept_cost >= reject_cost` is false, and so
  - both searches run to the end and report `n - 1` with NaN posteriors;
  - both audits label every line "Reject".
- `np.power(x, -0.5)` is not computed. It is a parameter `invSqrt`, assumed only positive with
  `x * invSqrt(x)^2 = 1` on `(0, 1)`. Every result holds for any such function.
- numpy/scipy internals (vectorised sums, `np.clip`, `comb`'s float result): replaced by
  sequences, `Clip`/`ClipReal` and the integer `Comb`.
- Monotonicity of the accept cost in `m`: the code neither checks nor promises it. The search
  is specified by its first crossing only.
- Sampling.Hypergeometric: requires `0 <= n <= N` (a nonzero divisor `C(N, n)`). The source's
  division by zero is the `InvalidParameters` branch of `BayesianQC.CalculateLikelihood`.
- Sampling.Binomial: requires `N != 0`. The source's division by zero is the
  `InvalidParameters` branch of `BayesianQC.CalculateLikelihood`.
- BayesianQC.UniformPrior: requires `N != 1` on a nonempty support, where the source divides
  by zero and yields `inf`. The posterior only calls it on `1..N-1`, which is empty when
  `N = 1`.
- BayesianQC.CalculateJeffreysPrior: requires `N >= 2` on a nonempty support. For smaller `N`
  the source's clip range is inverted or `M / N` divides by zero, and the posterior never
  evaluates it there.
- ImprovedScript.CalculateJeffreysPrior: requires `N >= 1` on a nonempty support, where `M / N`
  is defined. The posterior reports `N = 0` as `InvalidParameters`.
- SupportEquivalence.ThresholdsAgree and SupportEquivalence.SameThreshold: require `N >= 2`.
  For `N` of 0 or 1 with `n >= 2` the model's two tools differ: the engine scans an empty
  support, while the model of the script reports `InvalidParameters`. In the source the
  script's posterior is NaN there, so it reports `n - 1`. That matches the engine whenever
  the reject cost is positive.
