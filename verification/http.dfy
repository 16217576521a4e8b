/** The HTTP vocabulary the handlers use: bytes, status codes and rejections. */
module Http {

  type Byte = b: int | 0 <= b < 256

  const StatusOk: int := 200
  const StatusBadRequest: int := 400
  const StatusUnauthorized: int := 401
  const StatusUnprocessableEntity: int := 422
  const StatusInternalServerError: int := 500

  /** A `(StatusCode, String)` rejection, as axum turns it into a response. */
  datatype Rejection = Rejection(status: int, message: string)
}
