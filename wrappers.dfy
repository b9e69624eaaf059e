/** Failure-compatible wrappers shared by both components: a promise that
    resolves becomes `Success`, a promise that rejects (or a callback that
    throws) becomes `Failure`. */
module Wrappers {

  datatype Option<+T> = None | Some(value: T)

  /** The errors the core raises itself, plus the errors of its collaborators
      (file reads, parsers, the page renderer, the generator), which it only
      passes on unchanged. */
  datatype Error =
    | FileNotParsable(filename: string)
    | InvalidParseType(kind: string)
    | Raised(reason: string)

  datatype Result<+T> = Success(value: T) | Failure(error: Error) {

    predicate IsFailure() {
      Failure?
    }

    function PropagateFailure<U>(): Result<U>
      requires Failure?
    {
      Failure(error)
    }

    function Extract(): T
      requires Success?
    {
      value
    }
  }
}
