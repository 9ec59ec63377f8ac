/** Small shared vocabulary: optional values, HTTP outcomes and injected statement failures. */
module Wrappers {

  /** A value that may be absent: a SQL NULL, an undefined body field, a query with no row. */
  datatype Option<+T> = None | Some(value: T)

  /** The status a handler ends with. `NoResponse` is the path on which a handler returns
      without answering (the request is left hanging). */
  datatype Status =
    | Ok200
    | Created201
    | BadRequest400
    | Unauthorized401
    | NotFound404
    | Unprocessable422
    | ServerError500
    | NoResponse
  {
    predicate IsSuccess() { Ok200? || Created201? }
  }

  /** Which SQL statement of a handler throws, counting every statement the handler issues
      (reads included, COMMIT last) from 0 in the order it issues them. A statement that
      is never reached cannot fail. */
  datatype Fault = NoFault | FailAt(step: nat) {
    predicate Hits(k: nat) { FailAt? && step == k }
    predicate HitsWithin(first: nat, count: nat) { FailAt? && first <= step < first + count }
  }

  /** The answer of a read-only handler: a JSON payload with status 200, or an error status. */
  datatype Reply<+T> = Sent(value: T) | Refused(status: Status)
}
