/** A value that may be missing, and its propagation through `:-`. */
module Maybes {

  datatype Maybe<+T> = Nothing | Just(value: T) {
    predicate IsFailure() { Nothing? }
    function PropagateFailure<U>(): Maybe<U>
      requires Nothing?
    {
      Nothing
    }
    function Extract(): T
      requires Just?
    {
      value
    }
  }
}
