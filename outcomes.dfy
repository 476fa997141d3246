/** Small result types shared by the model. */
module Outcomes {

  /** A value that may be missing: a read from a stream that had nothing suitable left. */
  datatype Option<T> = None | Some(value: T)

  /** How an operation that can throw ended: normally, or with the message it threw. */
  datatype Status = Success | Failure(reason: string)
}
