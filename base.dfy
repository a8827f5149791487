/** Failure-carrying wrappers shared by the model. */
module Base {

  /** The exceptions the Python program can raise inside the sweep. */
  datatype Error =
    | FloorOfNonFinite   // math.floor on the nan/inf offset from a vertical segment's line
    | NotInSweep         // list.index / list.remove found no equal segment
    | NotInQueue         // SortedSet.remove found no equal event at its bisect_left position

  datatype Option<+T> = None | Some(value: T)

  datatype Result<+T> = Success(value: T) | Failure(error: Error)

  /** The result of an operation that returns nothing but may raise. */
  datatype Outcome = Pass | Fail(error: Error)
}
