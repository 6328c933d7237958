/** Nullable values and thrown exceptions, as datatypes. */
module Wrappers {

  /** A value the source may leave `null`. */
  datatype Option<+T> = None | Some(value: T)
  {
    /** The `??` operator: the value, or `default` when it is null. */
    function GetOr(default: T): T
    {
      match this
      case Some(v) => v
      case None => default
    }
  }

  /** The exceptions the modelled code can throw. */
  datatype Error =
    | NullReference        // a member access on a null reference
    | EmptyText            // "Text can't be empty" from the NodeValue constructor

  /** Either the value an operation returns or the exception it throws. */
  datatype Result<+T> = Success(value: T) | Failure(error: Error)
}
