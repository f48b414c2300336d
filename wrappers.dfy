/** Option and Result, the failure-carrying values used throughout the model. */
module Wrappers {

  datatype Option<+T> = None | Some(value: T) {
    function GetOr(default: T): T {
      match this
      case Some(v) => v
      case None => default
    }
  }

  /** The engine's exceptions, one constructor per exception class the manager throws. */
  datatype Error =
    | NotFound        // DiscountNotFoundException
    | NotEligible     // DiscountNotEligibleException
    | UsageExceeded   // DiscountUsageExceededException
    | UnsupportedType // DiscountException('Unsupported discount type.')

  datatype Result<+T> = Ok(value: T) | Err(error: Error)
}
