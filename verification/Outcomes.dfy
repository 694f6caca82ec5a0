/** Values that may be missing, and computations that may throw. */
module Outcomes {

  datatype Option<+T> = None | Some(value: T)

  /** `Err` stands for a thrown exception; it works with `:-`. */
  datatype Result<+T> = Ok(value: T) | Err(reason: string) {

    predicate IsFailure() {
      Err?
    }

    function PropagateFailure<U>(): Result<U>
      requires Err?
    {
      Err(reason)
    }

    function Extract(): T
      requires Ok?
    {
      value
    }
  }
}
