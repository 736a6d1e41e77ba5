/** Option and Result, the two failure-carrying shapes the model uses for Java's
    `null` returns and thrown exceptions. */
module Wrappers {

  /** `None` stands for a Java `null` result. */
  datatype Option<+T> = None | Some(value: T) {

    /** The first present value: this one if there is one, otherwise `fallback`. */
    function Or(fallback: Option<T>): Option<T>
    {
      if Some? then this else fallback
    }
  }

  /** `Failure` stands for an exception the Java code throws. */
  datatype Result<+T, +E> = Success(value: T) | Failure(error: E)
}
