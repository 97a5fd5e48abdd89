/** Failure-carrying return types shared by every module of the model.
    `Result` stands for Rust's `Result<T, E>` / `anyhow::Result<T>`;
    `Option` for Rust's `Option<T>`. */
module Results {

  datatype Option<+T> = None | Some(value: T)

  datatype Result<+T, +E> = Ok(value: T) | Err(error: E) {
    predicate IsFailure() { Err? }

    function PropagateFailure<U>(): Result<U, E>
      requires Err?
    {
      Err(error)
    }

    function Extract(): T
      requires Ok?
    {
      value
    }
  }

  /** The outcome of an adapter call that can also trap: a Rust panic
      (`unreachable!`, `todo!`, an out-of-range slice, a failed `assert!`)
      inside the produced component aborts the call instead of returning. */
  datatype Ret<+T, +E> = Done(value: T) | Fail(error: E) | Trap
}
