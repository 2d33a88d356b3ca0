module Wrappers {
  datatype Option<+T> = None | Some(value: T)

  /** Python's exceptions: `Err` is what a raise leaves, and `:-` propagates it. */
  datatype Result<+T, +E> = Ok(value: T) | Err(error: E) {
    predicate IsFailure() {
      Err?
    }

    function PropagateFailure<U>(): Result<U, E>
      requires Err?
    {
      Err(error)
    }

    function Extract(): T
      requires Ok?
    {
      value
    }
  }

  datatype Outcome<+E> = Pass | Fail(error: E) {
    predicate IsFailure() {
      Fail?
    }

    function PropagateFailure<U>(): Result<U, E>
      requires Fail?
    {
      Err(error)
    }
  }

  function Need<E>(condition: bool, error: E): (outcome: Outcome<E>)
    ensures outcome.Pass? <==> condition
  {
    if condition then Pass else Fail(error)
  }
}
