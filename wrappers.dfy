/** Option and Result, the failure-carrying values used throughout the model
    in place of Java's null returns and thrown exceptions. */
module Wrappers {

  datatype Option<+T> = None | Some(value: T)

  /** Err carries the name or message of the exception the source throws;
      Result works with `:-`, which stops at the first failure. */
  datatype Result<+T> = Ok(value: T) | Err(msg: string)
  {
    predicate IsFailure()
    {
      Err?
    }

    function PropagateFailure<U>(): Result<U>
      requires Err?
    {
      Err(msg)
    }

    function Extract(): T
      requires Ok?
    {
      value
    }
  }
}
