/** Failure-carrying values shared by the model.

    The program signals logic errors with Rust panics. A read that can panic is
    modelled as a `Result`; a mutation through `&mut self` that can panic is
    modelled as a `Run`: the state of the object after the call together with
    whether the call completed or panicked. */
module Outcomes {

  datatype Option<+T> = None | Some(value: T)

  datatype Result<+T, +E> = Success(value: T) | Failure(error: E)

  /** How a call ended: normally, or by a panic carrying its reason. */
  datatype Status<+E> = Completed | Panicked(reason: E)

  /** The object state observed after a mutating call, and how the call ended. */
  datatype Run<+S, +E> = Run(state: S, status: Status<E>)
}
