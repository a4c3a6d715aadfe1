/**
 * Shared value types of the task-management backend: the optional and
 * result wrappers its services use in place of `undefined`/`null` and thrown
 * errors, the task status enumeration and the identity carried in a token
 * (the `UserPayload` of backend/src/types/index.ts).
 */
module Types {

  /** A value that may be absent (`undefined` or `null` in the source). */
  datatype Option<+T> = None | Some(value: T) {
    function GetOr(default: T): T {
      match this
      case Some(v) => v
      case None => default
    }
  }

  /** The outcome of a service call: a value, or the error it throws. */
  datatype Result<+T, +E> = Ok(value: T) | Err(error: E)

  /** The two task states, 'PENDING' and 'COMPLETED'. */
  datatype Status = Pending | Completed

  /** The wire spelling of a status. */
  function StatusName(s: Status): string {
    match s
    case Pending => "PENDING"
    case Completed => "COMPLETED"
  }

  /** The status a wire string names, if any (exact, case-sensitive match). */
  function ParseStatus(s: string): (r: Option<Status>)
    ensures r.Some? <==> s == "PENDING" || s == "COMPLETED"
    ensures r.Some? ==> StatusName(r.value) == s
  {
    if s == "PENDING" then Some(Pending)
    else if s == "COMPLETED" then Some(Completed)
    else None
  }

  /** Parsing inverts printing: every status survives the round trip. */
  lemma ParseStatusName(s: Status)
    ensures ParseStatus(StatusName(s)) == Some(s)
  {
  }

  /** The identity a token carries: the user's id and email. */
  datatype Payload = Payload(id: int, email: string)
}
