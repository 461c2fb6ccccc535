/** Value wrappers shared by every module: Kotlin's nullable values, its Result<T>,
    and what a view-model observes when it awaits a repository call. */
module Outcomes {

  /** A Kotlin nullable value: `null` is None. */
  datatype Option<+T> = None | Some(value: T) {
    function GetOr(default: T): T {
      match this
      case Some(v) => v
      case None => default
    }
  }

  /** Kotlin's Result<T>: a value, or a failure whose exception message may be null. */
  datatype Result<+T> = Ok(value: T) | Err(message: Option<string>)

  /** The outcome of a repository call as seen by a caller wrapped in try/catch:
      either the call returned a Result, or an exception escaped it. */
  datatype Call<+T> = Returned(result: Result<T>) | Threw(message: Option<string>) {
    /** `result.isSuccess`. */
    predicate Succeeded() {
      Returned? && result.Ok?
    }

    /** The message a failure leaves in an `error` field: `exceptionOrNull()?.message`, or the
        caught exception's `message`. */
    function FailureMessage(): Option<string> {
      match this
      case Threw(m) => m
      case Returned(Err(m)) => m
      case Returned(Ok(_)) => None
    }
  }

  /** The failure `Exception(text)` produces. */
  function Fail<T>(text: string): Result<T> {
    Err(Some(text))
  }
}
