/**
 * The error type of the HTTP handler and its mapping to a response:
 * a status code and a JSON body `{"error": message}`.
 */
module Errors {
  import opened Wrappers

  datatype Error = BadRequest(message: string) | InternalServer

  /** The foreign errors that convert into `Error` through `From`; `detail` is what the logger sees. */
  datatype Cause = SerdeJson(detail: string) | Reqwest(detail: string) | Io(detail: string)

  const BadRequestStatus: nat := 400
  const InternalServerErrorStatus: nat := 500
  const ErrorKey: string := "error"
  const InternalServerMessage: string := "Internal server error"

  /** An error response: the HTTP status and the fields of the JSON body. */
  datatype ErrorResponse = ErrorResponse(status: nat, body: map<string, string>)

  /** `into_response`: every variant yields one status and a body with the single key "error". */
  function IntoResponse(e: Error): (r: ErrorResponse)
    ensures r.body.Keys == {ErrorKey}
    ensures r.status == BadRequestStatus <==> e.BadRequest?
    ensures r.status == InternalServerErrorStatus <==> e.InternalServer?
    ensures e.BadRequest? ==> r.body[ErrorKey] == e.message
    ensures e.InternalServer? ==> r.body[ErrorKey] == InternalServerMessage
  {
    match e
    case BadRequest(message) => ErrorResponse(BadRequestStatus, map[ErrorKey := message])
    case InternalServer => ErrorResponse(InternalServerErrorStatus, map[ErrorKey := InternalServerMessage])
  }

  /** The three `From` conversions: whatever the foreign error, the result is `InternalServer`. */
  function From(c: Cause): (e: Error)
    ensures e.InternalServer?
  {
    InternalServer
  }

  /** Reads an error back from a response; the inverse of `IntoResponse`. */
  function ErrorOf(r: ErrorResponse): (e: Option<Error>)
    ensures e.Some? ==> ErrorKey in r.body
  {
    if ErrorKey !in r.body then None
    else if r.status == BadRequestStatus then Some(BadRequest(r.body[ErrorKey]))
    else if r.status == InternalServerErrorStatus then Some(InternalServer)
    else None
  }

  /** The response determines the error it came from. */
  lemma ResponseRoundTrip(e: Error)
    ensures ErrorOf(IntoResponse(e)) == Some(e)
  {
  }

  /** Two different errors never produce the same response. */
  lemma IntoResponseInjective(e1: Error, e2: Error)
    requires IntoResponse(e1) == IntoResponse(e2)
    ensures e1 == e2
  {
  }

  /** No detail of a foreign error reaches the caller: all of them give the same 500 response. */
  lemma NoDetailLeaks(c1: Cause, c2: Cause)
    ensures IntoResponse(From(c1)) == IntoResponse(From(c2))
    ensures IntoResponse(From(c1)) == ErrorResponse(InternalServerErrorStatus, map[ErrorKey := InternalServerMessage])
  {
  }
}
