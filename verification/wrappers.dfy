/** Option and Result types shared by the whole model.
 *  `Result` stands for a Rust `Result`/`anyhow::Result`; a panic of the
 *  source is modelled separately, by the `Run` outcome, so that a caller
 *  can tell "returned an error" from "aborted". */
module Wrappers {

  datatype Option<T> = None | Some(value: T)
  {
    function UnwrapOr(default: T): (r: T)
      ensures Some? ==> r == value
      ensures None? ==> r == default
    {
      match this
      case Some(v) => v
      case None => default
    }
  }

  datatype Result<T> = Ok(value: T) | Err(error: string)

  /** The outcome of a computation that may abort with a panic or that may
   *  never terminate. */
  datatype Run<T> = Done(value: T) | Panic(message: string) | Diverges
}
