/** The Option and Result datatypes the model uses. */
module Wrappers {

  /** A value that may be absent: Python's `None` or a value. */
  datatype Option<+T> = None | Some(value: T)

  /** The outcome of an operation that either succeeds or raises. */
  datatype Result<+T, +E> = Success(value: T) | Failure(error: E)
}

/** The exceptions the population operations raise. */
module Errors {

  datatype Error =
    | Ambiguous         // survive: neither `fraction` nor `n` given (ValueError)
    | NoSurvivors       // survive: the resulting size leaves no one (RuntimeError)
    | TooManySurvivors  // survive: more survivors requested than exist (ValueError)
    | EmptyRange        // contest evaluate: `randint(0, -1)` on an empty population (ValueError)
    | EmptyPopulation   // min_individual / max_individual of no individuals (ValueError)
}
