/** Error conditions of the acceptance-sampling engine and the result type that carries them. */
module Outcomes {

  /** The ways a computation of the engine can fail instead of producing a value. */
  datatype Error =
    | UnknownPriorModel       // the prior selector is neither "Jeffreys" nor "Uniform"
    | UnknownLikelihoodModel  // the likelihood selector is neither "Hypergeometric" nor "Binomial"
    | InvalidParameters       // the lot parameters would make a formula divide by zero
    | DegeneratePosterior     // every posterior weight is zero, so they cannot be normalised
    | NothingEvaluated        // the threshold search evaluated no m, so it has no distributions to report

  datatype Option<+T> = None | Some(value: T)

  /** A value or the error that prevented it; usable with `:-`. */
  datatype Result<+T> = Success(value: T) | Failure(error: Error) {

    predicate IsFailure() {
      Failure?
    }

    function PropagateFailure<U>(): Result<U>
      requires Failure?
    {
      Failure(error)
    }

    function Extract(): T
      requires Success?
    {
      value
    }
  }
}
