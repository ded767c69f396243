/**
 * JSON responses: a status code, a message and an optional `data` payload.
 * The messages the controllers send are named by what they say.
 */
module Http {
  import opened Php
  import Validation

  const OK: int := 200
  const CREATED: int := 201
  const UNAUTHORIZED: int := 401
  const FORBIDDEN: int := 403
  const UNPROCESSABLE: int := 422
  const TOO_MANY_REQUESTS: int := 429
  const SERVER_ERROR: int := 500

  datatype Message =
    // PostController
    | PostsFetched
    | PostCreated
    | PostDeleted
    | NotOwnPostDelete
    | PostUpdated
    | NotOwnPostUpdate
    | SearchMatched
    | CommentCreated
    | CommentDeleted
    | NotOwnComment
    | ServerError
    // form requests and validation exceptions
    | InvalidInput(errors: Validation.Errors)
    | TooManyAttempts(seconds: nat)
    // AuthController
    | Registered
    | UnexpectedError
    | LoginFailed
    | LoggedIn
    | CurrentUser
    | CurrentUserError

  datatype Response<+T> = Response(status: int, message: Message, data: Option<T>)

  /** The reply a handler gives when anything inside its try block throws. */
  function ServerFailure<T>(): (r: Response<T>)
    ensures r.status == SERVER_ERROR && r.data == None
  {
    Response(SERVER_ERROR, ServerError, None)
  }

  /**
   * Where an unexpected exception hits a handler, once its input has been
   * validated: never, before its first write, or after its writes (which stay,
   * as no handler opens a transaction).  On a path that writes nothing, such as
   * a 403 or a 429, an exception after the write cannot happen.
   */
  datatype Fault = NoFault | Raises(afterWrite: bool)
}
