/**
 * Values shared by the route handlers and the badge service: optional
 * request fields with JavaScript truthiness, the outcome of `Number(...)`
 * coercion, and the status-plus-payload shape of an HTTP reply.
 */
module Common {

  datatype Option<+T> = None | Some(value: T)

  /** A request-body string field. `None` stands for a field that is missing
      (undefined or null); JavaScript treats it, and the empty string, as
      falsy, so `!field` holds exactly when `Truthy(field)` does not. */
  predicate Truthy(field: Option<string>)
  {
    field.Some? && field.value != ""
  }

  /** The strict comparison `stored === supplied` of a stored string with an
      optional request field: a missing field never equals a string. */
  predicate StrictlyEquals(stored: string, supplied: Option<string>)
  {
    supplied == Some(stored)
  }

  /** The result of JavaScript's `Number(...)` on a request parameter:
      either NaN or an integral number. */
  datatype JsNumber = NaN | Num(n: int)

  /** An HTTP reply: its status code and, for the replies whose JSON body
      the model tracks, that body. Error replies carry only a fixed message,
      which is not modelled. */
  datatype Reply<+T> = Reply(status: int, payload: Option<T>)

  const StatusOk: int := 200
  const StatusCreated: int := 201
  const StatusBadRequest: int := 400
  const StatusUnauthorized: int := 401
  const StatusForbidden: int := 403
  const StatusNotFound: int := 404
  const StatusServerError: int := 500
}
