/** The response envelope every service operation returns. */
module Responses {
  import opened Wrappers

  /** HTTP status codes, as the numbers the controller hands to the framework. */
  type HttpStatusCode = int

  const OK: HttpStatusCode := 200
  const BadRequest: HttpStatusCode := 400
  const Unauthorized: HttpStatusCode := 401
  const NotFound: HttpStatusCode := 404

  /** Status, message and optional payload; a missing payload is C#'s default (null). */
  datatype ResponseMessage<T> = ResponseMessage(statusCode: HttpStatusCode, message: string, data: Option<T>)
  {
    /** Success means a 2xx status. */
    predicate IsSuccess() {
      200 <= statusCode < 300
    }
  }

  const DefaultSuccessMessage: string := "Operación exitosa"

  /** A 200 OK response carrying `data`. */
  function SuccessResponse<T>(data: Option<T>, message: string := DefaultSuccessMessage): (r: ResponseMessage<T>)
    ensures r.IsSuccess() && r.statusCode == OK
    ensures r.data == data && r.message == message
  {
    ResponseMessage(OK, message, data)
  }

  /** An error response: no payload, status BadRequest unless another is given. */
  function ErrorResponse<T>(message: string, statusCode: HttpStatusCode := BadRequest): (r: ResponseMessage<T>)
    ensures r.data == None && r.message == message && r.statusCode == statusCode
    ensures r.IsSuccess() <==> 200 <= statusCode < 300
  {
    ResponseMessage(statusCode, message, None)
  }
}
