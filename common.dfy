/** Shared value types: optional values (C# nullable references), bytes and
    the exceptions the library throws, modelled as error results. */
module Common {

  /** A nullable reference: `None` stands for C# `null`. */
  datatype Option<+T> = None | Some(value: T)

  /** The argument-validation exceptions the library raises. `param` is the
      parameter name the source passes to the exception. */
  datatype Error =
    | ArgumentNull(param: string)
    | ArgumentOutOfRange(param: string)
    | Format
    | IndexOutOfRange

  /** The outcome of an operation that either returns a value or throws. */
  datatype Result<+T> = Ok(value: T) | Err(error: Error)

  /** The outcome of a `void` operation that may throw. */
  datatype Outcome = Pass | Fail(error: Error)

  /** A C# `byte`. */
  newtype byte = x: int | 0 <= x < 256
}
