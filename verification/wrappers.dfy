/** The optional-value datatype used for Java's `Optional`, `OptionalInt`
    and `OptionalLong` results, and for a reference that may be null. */
module Wrappers {

  datatype Option<+T> = None | Some(value: T) {

    /** The value, or `default` when there is none (Java's `orElse`). */
    function GetOr(default: T): T
    {
      match this
      case Some(v) => v
      case None => default
    }
  }
}
