/** Results of the cipher operations: either a value or the Java exception that
    the source lets escape (or catches) at that point. */
module Outcomes {

  /** The runtime exceptions the modelled code can raise. */
  datatype JavaException =
    | ArithmeticException          // `i % 0` in the Vigenère loops
    | StringIndexOutOfBounds       // `substring` with an index outside the string

  datatype Result<+T> = Success(value: T) | Failure(error: JavaException) {

    predicate IsFailure() {
      Failure?
    }

    function PropagateFailure<U>(): Result<U>
      requires Failure?
    {
      Failure(error)
    }

    function Extract(): T
      requires Success?
    {
      value
    }
  }
}
