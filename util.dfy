/** Small value wrappers shared by the modules of the machine model. */
module Util {

  /** An optional value: the model's stand-in for a pointer that may be NULL. */
  datatype Option<+T> = None | Some(value: T)

  /** Either a value or the kind of error that prevented it. */
  datatype Result<+T, +E> = Success(value: T) | Failure(error: E)

  /** Concatenation of four sequences, regrouped to the right. */
  lemma Regroup<T>(a: seq<T>, b: seq<T>, c: seq<T>, d: seq<T>)
    ensures a + b + c + d == a + (b + c + d) == a + (b + (c + d))
  {
  }
}
