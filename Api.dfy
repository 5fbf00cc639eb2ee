/** Vocabulary shared by the route handlers: optional values, the HTTP error
    a handler raises, and the result a handler returns. */
module Api {

  /** A nullable column or an omitted optional field. */
  datatype Option<+T> = None | Some(value: T)

  /** An `HTTPException`: the response status and its `detail` text. */
  datatype Error = Error(status: nat, detail: string)

  /** What a handler produces: the response body, or the error it raised. */
  datatype Result<+T> = Ok(value: T) | Err(error: Error)

  /** A timestamp as the database stores it (epoch seconds or a datetime).
      Its value is supplied by the caller; nothing here computes with it. */
  type Stamp = int

  /** The framework's answer to a request whose path, query or body fails
      validation against the declared schema, before the handler runs. */
  const UnprocessableEntity := Error(422, "Unprocessable Entity")

  /** The framework's answer to an exception the handler does not catch. */
  const InternalServerError := Error(500, "Internal Server Error")
}
