/** Result types and error kinds shared by every component of the control plane. */
module Common {

  datatype Option<+T> = None | Some(value: T)

  /** The sentinel errors of internal/platform/httpx and of the domain packages. */
  datatype Error =
    | NotFound
    | Conflict
    | Precondition
    | BadRequest
    | Forbidden
    | BadTransition
    | InvalidValue
    | StaleLease
    | InvalidConfig
    | Fault // an index out of range, which stops the caller

  datatype Result<+T> = Ok(value: T) | Err(error: Error)

  /** Names one numbered version of one configuration. */
  datatype VersionRef = VersionRef(configID: string, version: int)

  /** A Go map read: a missing key yields the zero value of the element type. */
  function Lookup(m: map<string, string>, k: string): string {
    if k in m then m[k] else ""
  }
}
