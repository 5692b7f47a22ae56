/** Failure-carrying return types: the driver's `Option` and `Result`, and the
    outcome of a binder step whose success value is the binder itself. */
module Wrappers {

  datatype Option<+T> = None | Some(value: T)

  datatype Result<+T, +E> = Ok(value: T) | Err(error: E)

  /** What a `bind_*` call returns once the binder is modelled as an object that
      is updated in place: `Pass` stands for `Ok(self)`, `Fail(e)` for `Err(e)`. */
  datatype Outcome<+E> = Pass | Fail(error: E)
}
