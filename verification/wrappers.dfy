/** Optional values, results and the exceptions that the collections raise.
    Every Java exception class the model reaches becomes one constructor of `Error`. */
module Wrappers {

  /** A slot or link that may be null. */
  datatype Option<+T> = None | Some(value: T)

  /** Which child a `ChildNotFoundException` complains about. */
  datatype Side = LeftSide | RightSide

  datatype Error =
    | EmptyCollection          // EmptyCollectionException
    | ElementNotFound          // ElementNotFoundException
    | ChildNotFound(side: Side) // ChildNotFoundException
    | IndexOutOfBounds         // ArrayIndexOutOfBoundsException / IndexOutOfBoundsException
    | IllegalArgument          // IllegalArgumentException
    | NegativeArraySize        // NegativeArraySizeException
    | ConcurrentModification   // ConcurrentModificationException
    | NoSuchElement            // NoSuchElementException
    | StackOverflow            // StackOverflowError

  /** The outcome of an operation that may throw. */
  datatype Result<+T> = Ok(value: T) | Err(error: Error)
}
