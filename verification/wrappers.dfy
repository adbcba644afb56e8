/** Failure-carrying results shared by the union-find and the graph.

    The Java code reports failures by throwing; the two exception kinds it
    throws become the two `Error` values here.
 */
module Wrappers {

  /** The exceptions the library throws. */
  datatype Error =
    | InvalidArgument   // IllegalArgumentException
    | NoPathExists      // NoPathExistsException

  /** Either a value or the exception the call would have thrown. */
  datatype Result<+R> = Success(value: R) | Failure(error: Error)

  /** A possibly-null reference. */
  datatype Option<+T> = None | Some(value: T)
}
