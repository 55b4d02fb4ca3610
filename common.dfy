/** Values shared by the denylist store and the API-key check: optional
    values (Python's `None`), and the HTTP errors the service raises. */
module Common {

  /** `str | None` and friends. */
  datatype Option<+T> = None | Some(value: T)

  /** The status code and detail text of a FastAPI `HTTPException`. */
  datatype HttpError = HttpError(status: int, detail: string)

  /** An operation either returns a value or raises an `HTTPException`. */
  datatype Result<+T> = Success(value: T) | Failure(error: HttpError)
}
