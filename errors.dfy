/** The errors the engine raises. */
module Errors {
  /**
   * The three domain errors, each carrying its message, and the
   * `RangeError` the runtime raises when a fixed window of zero seconds
   * makes its reset time an invalid date.
   */
  datatype EngineError =
    | ValidationError(message: string)
    | IdempotencyConflictError(message: string)
    | NotFoundError(message: string)
    | RangeError(message: string)
}
