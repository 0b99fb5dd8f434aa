/** Failure-compatible wrappers shared by every layer of the model: an optional
    value (a nullable column or an absent request field) and a result that is
    either a value or the HTTP refusal the API answers with. */
module Outcomes {

  /** A nullable value: `None` plays the part of SQL NULL / Python None. */
  datatype Option<+T> = None | Some(value: T) {

    /** The value if present, otherwise `default`. */
    function GetOr(default: T): T {
      match this
      case Some(v) => v
      case None => default
    }
  }

  /** The refusals the modelled handlers can produce, named by their meaning:
      400, 401, 403, 404, 405, and 500 for an exception escaping a handler. */
  datatype Status =
    | BadRequest
    | Unauthorized
    | Forbidden
    | NotFound
    | MethodNotAllowed
    | InternalError

  /** Either the handler's value or the refusal it answers with. */
  datatype Result<+T> = Ok(value: T) | Err(status: Status) {

    predicate IsFailure() {
      Err?
    }

    function PropagateFailure<U>(): Result<U>
      requires Err?
    {
      Err(status)
    }

    function Extract(): T
      requires Ok?
    {
      value
    }
  }

  /** `Ok(())` when `condition` holds, the refusal `status` otherwise. */
  function Need(condition: bool, status: Status): (r: Result<()>)
  {
    if condition then Ok(()) else Err(status)
  }
}
