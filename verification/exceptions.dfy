/** The failures model construction can raise, and the result types that carry them. */
module Exceptions {

  datatype Error =
      /** The graph's node identifiers are not exactly `0..N-1`. */
    | UnsupportedGraphError
      /** A float `initially_infected` outside `(0, 1)` is kept as a float, and
          repeating a list by a float count raises `TypeError` in `reset`. */
    | NonIntegerCount

  datatype Result<+T> = Ok(value: T) | Err(error: Error)

  datatype Outcome = Pass | Fail(error: Error)
}
