/** Small shared datatypes: an absence marker and the exception the collections raise. */
module Wrappers {

  /** `None` stands for Java's `null` (an absent value or an empty array slot). */
  datatype Option<T> = None | Some(value: T)

  /** The one exception the collections raise: `ArrayIndexOutOfBoundsException`. */
  datatype Error = IndexOutOfBounds

  /** The result of an operation that returns a value or throws. */
  datatype Result<T> = Success(value: T) | Failure(error: Error)

  /** The result of a `void` operation that may throw. */
  datatype Outcome = Pass | Fail(error: Error)
}
