/** Outcome types shared by the controllers: an optional value, a success-or-error
    result, and the pair a state-changing handler produces. */
module Results {

  /** A value that may be missing, such as an absent field of a request body. */
  datatype Option<+T> = None | Some(value: T)

  /** The value a handler answers with, or the error it rejects the request with. */
  datatype Result<+T, +E> = Ok(value: T) | Err(error: E)

  /** What a state-changing handler produces: its result and the store afterwards. */
  datatype Transition<+T, +E, +S> = Transition(result: Result<T, E>, next: S)
}
