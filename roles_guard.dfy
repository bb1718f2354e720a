/** The guard on routes carrying `@Roles(...)` metadata: a decision over the metadata list and
    the user the authentication middleware put on the request. */
module RolesGuard {
  import opened Common
  import opened UserEntities

  /** One element of a route's roles metadata. The list is declared as a list of roles, but its
      first element is also compared with the user's id, so it may hold either. */
  datatype Meta = RoleName(role: Role) | Id(id: int)

  /** `requiredRoles[0]`, undefined for an empty list. */
  function First(required: seq<Meta>): (m: Option<Meta>)
    ensures m.Some? <==> |required| > 0
    ensures m.Some? ==> m.value == required[0]
  {
    if required == [] then None else Some(required[0])
  }

  /** `user.id === requiredRoles[0]`: a strict comparison, so only an id element can match. */
  predicate IsFirst(required: seq<Meta>, id: Option<int>) {
    id.Some? && First(required) == Some(Id(id.value))
  }

  /** `user.subordinates.includes(requiredRoles[0])`, the subordinates taken by id. */
  predicate FirstAmong(required: seq<Meta>, subordinates: seq<int>) {
    |required| > 0 && required[0].Id? && required[0].id in subordinates
  }

  /** Lines 10-35. `required` is the metadata (`None` when the route has none) and `user` the
      request's user (`null` when the request carries none). A boss whose subordinates were not
      loaded makes `includes` throw. */
  function CanActivate(required: Option<seq<Meta>>, user: UserEntity?): (r: Result<bool, Error>)
    reads user
    ensures required.None? ==> r == Success(true)
    ensures required.Some? && user != null && user.role == Some(Admin) ==> r == Success(true)
    ensures required.Some? && user == null ==> r == Success(false)
    ensures required.Some? && user != null && user.role == Some(Boss) ==>
      (r == Success(true) <==>
        RoleName(Boss) in required.value
        && (IsFirst(required.value, user.id)
            || (user.subordinates.Some? && FirstAmong(required.value, user.subordinates.value))))
    ensures required.Some? && user != null && user.role == Some(User) ==>
      (r == Success(true) <==> RoleName(User) in required.value && IsFirst(required.value, user.id))
    ensures required.Some? && user != null && user.role.None? ==> r == Success(false)
    ensures r.Failure? <==>
      && required.Some? && user != null && user.role == Some(Boss) && user.subordinates.None?
      && RoleName(Boss) in required.value && !IsFirst(required.value, user.id)
    ensures r.Failure? ==> r.error.TypeError?
  {
    if required.None? then Success(true)
    else if user != null && user.role == Some(Admin) then Success(true)
    else if user != null && user.role == Some(Boss) then
      if RoleName(Boss) !in required.value then Success(false)
      else if IsFirst(required.value, user.id) then Success(true)
      else if user.subordinates.None? then
        Failure(TypeError("Cannot read properties of undefined (reading 'includes')"))
      else Success(FirstAmong(required.value, user.subordinates.value))
    else
      Success(user != null && user.role == Some(User) && RoleName(User) in required.value
              && IsFirst(required.value, user.id))
  }

  /** A route whose metadata names neither `boss` nor `user` (such as the `@Roles(Role.Admin)`
      on the list of all users) admits exactly the administrators, and never throws. */
  lemma AdminOnlyRoute(required: seq<Meta>, user: UserEntity?)
    requires RoleName(Boss) !in required && RoleName(User) !in required
    ensures CanActivate(Some(required), user) == Success(user != null && user.role == Some(Admin))
  {
  }

  /** When the metadata starts with a role name, no one but an administrator gets through:
      a boss or a user is admitted only by an id in first place. */
  lemma RoleNameFirstAdmitsOnlyAdmins(required: seq<Meta>, user: UserEntity?)
    requires |required| > 0 && required[0].RoleName?
    ensures CanActivate(Some(required), user) == Success(true) ==> user != null && user.role == Some(Admin)
  {
  }

  /** A boss whose subordinates were not loaded (as with the users the middleware loads by id,
      without relations) is admitted only by its own id in first place; in every other case
      where `boss` is required the guard throws. */
  lemma UnloadedSubordinatesAdmitByIdOnly(required: seq<Meta>, user: UserEntity)
    requires user.role == Some(Boss) && user.subordinates.None?
    ensures CanActivate(Some(required), user).Success? ==>
      CanActivate(Some(required), user) == Success(RoleName(Boss) in required && IsFirst(required, user.id))
    ensures CanActivate(Some(required), user).Failure? <==> RoleName(Boss) in required && !IsFirst(required, user.id)
  {
  }
}
