/** The exceptions that the modelled Python code raises by itself, and a
    result type that carries either a value or the exception raised. */
module Outcomes {

  /** ZeroDivisionError: a division by a zero time or pulse count.
      IndexError: a list indexed past its end, including the empty solution
      list that an equation without a solution produces. */
  datatype Error = ZeroDivisionError | IndexError

  datatype Result<+T> = Success(value: T) | Failure(error: Error)
}
