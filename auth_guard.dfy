/** The guard on routes that need a signed-in user. */
module AuthGuard {
  import opened Common
  import opened UserEntities

  const NotAuthorized := "Not authorized"

  /** Lines 12-21: the request's user (`null` when the middleware found none) is let through,
      anything else is refused with 401. The guard answers true or throws; it never says false. */
  function CanActivate(user: UserEntity?): (r: Result<bool, Error>)
    ensures r == Success(true) <==> user != null
    ensures r == Failure(Unauthorized(NotAuthorized)) <==> user == null
    ensures r != Success(false)
  {
    if user != null then Success(true) else Failure(Unauthorized(NotAuthorized))
  }
}
