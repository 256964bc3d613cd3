/** The HTTP responses the handlers write: a status and either nothing, an
    `http.Error` message, or a JSON payload. */
module Http {
  const StatusOK := 200
  const StatusCreated := 201
  const StatusNoContent := 204
  const StatusBadRequest := 400
  const StatusUnauthorized := 401
  const StatusNotFound := 404
  const StatusInternalServerError := 500

  datatype Body<T> = NoBody | Message(text: string) | Payload(value: T)

  datatype Response<T> = Response(status: int, body: Body<T>)

  /** `http.Error(w, message, status)` */
  function Error<T>(status: int, message: string): Response<T> {
    Response(status, Message(message))
  }

  predicate IsError<T>(r: Response<T>) {
    r.status >= 400
  }
}
