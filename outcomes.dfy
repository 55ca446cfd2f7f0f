/** Results and the exception kinds that the automaton raises. */
module Outcomes {

  /** A value or the error that the Java code throws instead of returning one. */
  datatype Result<+T, +E> = Ok(value: T) | Err(error: E)

  /** The exceptions of the automaton package that the model keeps. */
  datatype Failure =
    | NonDeterministicOperation           // delta on an automaton not flagged deterministic
    | StateNotInAutomaton(index: int)     // checkState: an index at or above the state count
    | UnknownValue(symbol: int)           // getCharFromInt: a symbol with no codepoint
}
