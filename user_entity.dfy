/** The user record: the request body that creates one, the row the `users` table keeps,
    and the entity object the service builds and mutates. */
module UserEntities {
  import opened Common

  /** The body of a create request. `bossId` and the subordinate ids are strings, as declared.
      The service does not validate the body itself, so every field, the required ones
      included, is `None` when the body lacks it. The registration route's validation pipe,
      which refuses such bodies before the service sees them, is not part of this model. */
  datatype CreateUserDto = CreateUserDto(
    name: Option<string>,
    email: Option<string>,
    password: Option<string>,
    role: Option<Role>,
    bossId: Option<string>,
    subordinates: Option<seq<string>>)

  /** One row of the `users` table; the store keys it by its id. `boss` is the nullable
      `bossId` foreign key, the one edge of the hierarchy (subordinates are its reverse). */
  datatype UserRecord = UserRecord(email: string, name: string, password: string, role: Role, boss: Option<int>)

  /** The role the table stores for an entity whose role was left unset: the column default. */
  function StoredRole(role: Option<Role>): (r: Role)
    ensures role.Some? ==> r == role.value
    ensures role.None? ==> r == User
  {
    role.GetOr(User)
  }

  /** The entity object. Every field is `None` until something assigns it, as a property of a
      TypeScript object is undefined until then. The boss edge is kept as the boss's id and the
      subordinates as their ids. */
  class UserEntity {
    var id: Option<int>
    var email: Option<string>
    var name: Option<string>
    var password: Option<string>
    var role: Option<Role>
    var bossId: Option<int>
    var subordinates: Option<seq<int>>

    /** Without a body the object stays empty (this is how the ORM creates the objects it
        hydrates); with one it copies exactly the email, password, name and role. */
    constructor (user: Option<CreateUserDto>)
      ensures user.None? ==> email.None? && password.None? && name.None? && role.None?
      ensures user.Some? ==>
        && email == user.value.email
        && password == user.value.password
        && name == user.value.name
        && role == user.value.role
      ensures id.None? && bossId.None? && subordinates.None?
    {
      id, bossId, subordinates := None, None, None;
      if user.None? {
        email, name, password, role := None, None, None, None;
      } else {
        var dto := user.value;
        email := dto.email;
        password := dto.password;
        name := dto.name;
        email := dto.email;  // the email is assigned twice
        role := dto.role;
      }
    }
  }
}
