/** The failure-carrying result that stands for the panic in `build_psbt` when the fee is not covered. */
module Wrappers {

  datatype Result<+T, +E> = Ok(value: T) | Err(error: E)
}
