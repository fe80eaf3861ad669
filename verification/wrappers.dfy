/** Success/failure results and optional values, as the stores' `Result<T>`
    objects and JavaScript's `undefined` are modelled. */
module Wrappers {

  /** An optional value: `None` stands for JavaScript's `null` or `undefined`. */
  datatype Option<+T> = None | Some(value: T)

  /** The `{ success, data }` / `{ success: false, error }` objects the stores return. */
  datatype Result<+T, +E> = Success(value: T) | Failure(error: E)
}
