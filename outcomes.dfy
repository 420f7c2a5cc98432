/** The exceptions that the address book bot raises and never catches, and the
    result type that carries them instead of a stack unwinding. */
module Outcomes {

  /** KeyError: a name-keyed store operation found no contact.
      IndexError: the dispatcher took the first token of a line that has none.
      TypeError: a command class was called with the wrong number of arguments. */
  datatype Error = KeyError(message: string) | IndexError | TypeError

  datatype Option<T> = None | Some(value: T)

  datatype Result<T> = Ok(value: T) | Err(error: Error)
}
