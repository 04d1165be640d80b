/** Small failure-carrying datatypes shared by the whole model. */
module Wrappers {

  /** A Java reference that may be null. */
  datatype Option<+T> = None | Some(value: T)

  /** The outcome of a service call: a value, or the exception it throws. */
  datatype Result<+T, +E> = Ok(value: T) | Err(error: E)

  /** The elements of a collection that may be null; a null collection has none. */
  function Elements<T>(c: Option<seq<T>>): (r: seq<T>)
    ensures c.None? ==> r == []
    ensures c.Some? ==> r == c.value
  {
    if c.Some? then c.value else []
  }
}
