/** Java's two ways out of a call: a returned value or a thrown exception,
    and Java's null reference as an Option. */
module Outcomes {

  /** The runtime exceptions the codec paths can raise. */
  datatype Exception =
    | StringIndexOutOfBounds   // String.charAt past the end
    | ArrayIndexOutOfBounds    // indexing a byte[] with a negative or too large index
    | IllegalArgument          // IllegalArgumentException thrown explicitly

  datatype Outcome<+T> = Returned(value: T) | Threw(exception: Exception)

  /** A Java reference that may be null. */
  datatype Option<+T> = None | Some(value: T)
}
