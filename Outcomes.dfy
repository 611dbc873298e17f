/** Outcomes of the map callbacks and of a whole job: the two ways a map task can
    fail (the `RuntimeException` for a line that has a first token and no second,
    and the `NumberFormatException` of `Long.parseLong`), what one call of `map`
    writes to its context (nothing, one record, or it throws), and the result of a
    job that either completes or fails. */
module Outcomes {

  datatype Option<T> = None | Some(value: T)

  datatype Failure =
    | InvalidLine(message: string)
    | BadNumber(token: string)

  /** What one call of a mapper's `map` does with its input line. */
  datatype Emitted<T> = Skip | Emit(record: T) | Fail(failure: Failure)

  /** A stage or a job: it completes with its output, or fails. */
  datatype Result<T> = Ok(value: T) | Err(failure: Failure)
}
