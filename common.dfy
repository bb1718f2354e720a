/** Values shared by the user directory, its queries and the two guards. */
module Common {

  datatype Option<+T> = None | Some(value: T) {
    /** The value, or `default` where JavaScript would apply a default parameter. */
    function GetOr(default: T): T {
      match this
      case Some(v) => v
      case None => default
    }
  }

  datatype Result<+T, +E> = Success(value: T) | Failure(error: E)

  /** The `users_role_enum` of the database: 'admin', 'boss', 'user'. */
  datatype Role = Admin | Boss | User

  /** What the service and the guards throw, and what the database raises. */
  datatype Error =
    | BadRequest(message: string)         // HttpException with HttpStatus.BAD_REQUEST
    | Conflict(message: string)           // HttpException with HttpStatus.CONFLICT
    | NotFound(subject: string, id: int)  // NotFoundException: "<subject> with id <id> not found"
    | Unauthorized(message: string)       // HttpException with HttpStatus.UNAUTHORIZED
    | QueryFailed(reason: string)         // an error raised by PostgreSQL
    | TypeError(reason: string)           // a JavaScript TypeError
    | Thrown(message: string)             // any other JavaScript Error a library throws
    | Unterminated                        // a recursion past the levels the model follows; never reached
}
