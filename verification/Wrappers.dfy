/** What all modules share: the source's `None` results, its exceptions, and uids. */
module Wrappers {
  /** A miner's number in the metagraph. */
  type Uid = nat

  datatype Option<+T> = None | Some(value: T)

  /** The exceptions the modelled code can raise. */
  datatype Error =
    | ValueError
    | IndexError
    | TypeError
    | ZeroDivisionError
    | NotFound

  datatype Result<+T> = Ok(value: T) | Err(error: Error) {
    predicate IsFailure() {
      Err?
    }

    function PropagateFailure<U>(): Result<U>
      requires Err?
    {
      Err(error)
    }

    function Extract(): T
      requires Ok?
    {
      value
    }
  }
}
