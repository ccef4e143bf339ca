/**
 * What a handler reads of a request, and the response envelope. A handler
 * sees a request's headers, its query parameters and its body; it answers with the JSON envelope
 * `{success, message, data}` and a status.
 */
module Http {
  import opened Wrappers
  import opened Values

  /** The request headers the core reads; `None` is a header that is absent. */
  datatype Headers = Headers(authorization: Option<string>, cookie: Option<string>, contentType: Option<string>)

  /** What `await request.json()` gives: a parsed value, a `SyntaxError`, or any other failure to read the body. */
  datatype Body = Parsed(value: Value) | SyntaxError | ReadFailure

  /**
   * The envelope a handler returns, or `Uncaught` when the handler lets an
   * exception escape and the framework answers in its place.
   */
  datatype Response<+D> =
    | Reply(success: bool, message: string, data: Option<D>, status: int)
    | Uncaught

  /** `errorResponse(message, status)`: status 400 unless another is given. */
  function ErrorResponse<D>(message: string, status: int := 400): Response<D> {
    Reply(false, message, None, status)
  }

  /** `successResponse(message, data)`, with the default status 200. */
  function SuccessResponse<D>(message: string, data: Option<D>): Response<D> {
    Reply(true, message, data, 200)
  }

  /** The response's status is 2xx (`response.ok` on the client). */
  predicate Ok<D>(r: Response<D>) {
    r.Reply? && 200 <= r.status < 300
  }
}
