/** Values that cross the request boundary: optional body fields read with
    JavaScript truthiness, and the HTTP status codes the handlers answer with. */
module Request {

  datatype Option<+T> = None | Some(value: T)

  /** A string field of a request body or path; None when it is absent. */
  type Field = Option<string>

  /** `!!f` in JavaScript: the field is present and not the empty string. */
  predicate Supplied(f: Field) {
    f.Some? && f.value != []
  }

  /** `f || fallback` in JavaScript, for a string field. */
  function Or(f: Field, fallback: string): string {
    if Supplied(f) then f.value else fallback
  }

  const Ok: int := 200
  const Created: int := 201
  const BadRequest: int := 400
  const NotFound: int := 404
  const ServerError: int := 500
}
