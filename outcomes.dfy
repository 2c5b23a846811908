/** Optional values, results and the HTTP exception kinds that the
    repository, the service, the pipe and the guard can raise. A thrown
    exception is an `Err`; a returned value is an `Ok`. */
module Outcomes {

  datatype Option<+T> = None | Some(value: T) {
    function GetOr(default: T): T {
      match this
      case Some(v) => v
      case None => default
    }
  }

  /** The exceptions of the core. `StoreFailure` stands for anything else
      that a call into the document store may throw (network, permission,
      quota): it is not an HTTP exception. */
  datatype Error =
    | NotFound(message: string)
    | BadRequest(message: string)
    | Conflict(message: string)
    | Forbidden(message: string)
    | InternalServerError(message: string)
    | StoreFailure(detail: string)

  datatype Result<+T> = Ok(value: T) | Err(error: Error)
}
