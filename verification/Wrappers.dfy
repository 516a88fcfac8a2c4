/** Results, absence and the failures the wallet raises, without their messages. */
module Wrappers {
  datatype Option<+T> = None | Some(value: T)

  /** The exceptions of the modelled code; their texts are not modelled. */
  datatype Error =
    | InsufficientFunds   // coins.py: the coins cannot cover amount plus fee
    | ValueError          // malformed script, hex, address or amount
    | SwapAborted         // swap.py: the swap must not proceed
    | QuoteRejected       // thorchain.py: the node refused the quote
    | SigningRefused      // an input stayed unsigned, or the signature check failed
    | BroadcastRejected   // the network refused a raw transaction

  datatype Result<+T> = Success(value: T) | Failure(error: Error) {
    predicate IsFailure() { Failure? }

    function PropagateFailure<U>(): Result<U>
      requires Failure?
    {
      Failure(error)
    }

    function Extract(): T
      requires Success?
    {
      value
    }
  }
}
