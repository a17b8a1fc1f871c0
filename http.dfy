/** The HTTP errors raised by the handlers and dependencies, with the status
    codes and detail strings they carry. */
module Http {

  datatype HttpError = HttpError(status: int, detail: string)

  const BadRequest := 400
  const Unauthorized := 401
  const Forbidden := 403
  const NotFound := 404
  const Locked := 423
  const PreconditionRequired := 428
  const UnprocessableEntity := 422
  const InternalServerError := 500

  /** FastAPI's answer to a request body that its schema rejects. */
  const ValidationFailed := HttpError(UnprocessableEntity, "Request validation failed")
}
