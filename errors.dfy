/**
 * The exceptions the core raises. `HttpException` is FastAPI's exception with a status
 * code and a detail message; the other constructors are the application's own exception
 * classes and the library exceptions that reach the server's error handlers.
 */
module Errors {

  const HTTP_400_BAD_REQUEST := 400
  const HTTP_401_UNAUTHORIZED := 401
  const HTTP_403_FORBIDDEN := 403
  const HTTP_404_NOT_FOUND := 404

  datatype Error =
    | HttpException(statusCode: int, detail: string)
    | UserNotFound
    | BlogNotFound
    | BlogAlreadyExists
    | TagNotFound
    | TagAlreadyExists
      /** A unique or check constraint refused at commit (SQLAlchemy's IntegrityError). */
    | IntegrityError
      /** An attribute read on `None` (Python's AttributeError). */
    | AttributeError
      /** `datetime.strptime` refusing its input (Python's ValueError). */
    | ValueError
}
