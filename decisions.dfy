/** The shapes of what both front ends report, and the audit window around a threshold. */
module Decisions {
  /** What calculate_posterior returns: the support, the prior and the posterior on it. */
  datatype PosteriorTable = PosteriorTable(Ms: seq<int>, prior: seq<real>, posterior: seq<real>)

  datatype Verdict = Accept | Reject

  /** One line of the audit: an observed count, both expected costs and the decision. */
  datatype CostDetail = CostDetail(m: int, acceptCost: real, rejectCost: real, decision: Verdict)

  /** What the threshold search returns: the threshold m*, the support, the prior, and
      each evaluated m paired with its posterior. */
  datatype SearchOutcome = SearchOutcome(threshold: int, Ms: seq<int>, prior: seq<real>, posteriors: seq<(int, seq<real>)>)

  function Min(a: int, b: int): int
  {
    if a <= b then a else b
  }

  // ---------------------------------------------------------------- audit window

  /** [x] when x is a valid observed count (1 <= x <= n - 1), else nothing. */
  function Keep(x: int, n: int): seq<int>
  {
    if 1 <= x < n then [x] else []
  }

  /** The valid counts among the first j candidates m* - 1, m*, m* + 1, in that order. */
  function Candidates(mStar: int, n: int, j: nat): (W: seq<int>)
    ensures |W| <= j
    ensures forall k :: 0 <= k < |W| ==> mStar - 1 <= W[k] < mStar - 1 + j && 1 <= W[k] <= n - 1
    ensures forall k, l :: 0 <= k < l < |W| ==> W[k] < W[l]
    ensures forall x :: mStar - 1 <= x < mStar - 1 + j && 1 <= x <= n - 1 ==> x in W
  {
    if j == 0 then [] else Candidates(mStar, n, j - 1) + Keep(mStar - 1 + (j - 1), n)
  }

  /** The audited counts: those of m* - 1, m*, m* + 1 that lie in 1..n-1, increasing. */
  function AuditPoints(mStar: int, n: int): (W: seq<int>)
    ensures |W| <= 3
    ensures forall k :: 0 <= k < |W| ==> mStar - 1 <= W[k] <= mStar + 1 && 1 <= W[k] <= n - 1
    ensures forall k, l :: 0 <= k < l < |W| ==> W[k] < W[l]
    ensures forall x :: mStar - 1 <= x <= mStar + 1 && 1 <= x <= n - 1 ==> x in W
  {
    Candidates(mStar, n, 3)
  }

}
