/** The users service: creating a user, reading one by id, moving a boss edge, and the two
    paged hierarchy reads. The repository behind it is the `users` table, kept here as a map
    from id to row together with the next value of the table's SERIAL id sequence. */
module Users {
  import opened Common
  import opened UserEntities
  import opened Pagination
  import opened Hierarchy
  import opened TreeAssembly
  import opened NumericInput

  const AdminShape := "An administrator cannot have a boss or subordinates"
  const UserShape := "A user must have a boss and cannot have subordinates"
  const BossShape := "A boss must have subordinates"
  const EmailInUse := "Email is already in use "
  const BossNotFound := "Boss not found"
  const SubordinatesNotFound := "One or more subordinates not found"
  const UserCannotBeBoss := "Users cannot be a boss"

  /** The body of a boss change. `subordinateId` is read by the service although the DTO class
      does not declare it; either field may be missing from the body. */
  datatype UpdateUserDto = UpdateUserDto(newBossId: Option<int>, subordinateId: Option<int>)

  /** What the table's constraints and the SERIAL sequence guarantee: ids are below the next
      sequence value, every boss edge points at a row (the foreign key), emails are unique. */
  ghost predicate StoreValid(users: map<int, UserRecord>, nextId: int) {
    && 1 <= nextId
    && (forall k | k in users :: 1 <= k < nextId)
    && (forall k {:trigger users[k]} | k in users && users[k].boss.Some? :: users[k].boss.value in users)
    && (forall k, j {:trigger SameEmail(users, k, j)} :: SameEmail(users, k, j) ==> k == j)
  }

  /** Rows `k` and `j` both exist and hold the same email. */
  ghost predicate SameEmail(users: map<int, UserRecord>, k: int, j: int) {
    k in users && j in users && users[k].email == users[j].email
  }

  // ---------------------------------------------------------------- JavaScript truthiness

  /** `!bossId` is false exactly for a present, non-empty string. */
  predicate Truthy(s: Option<string>) {
    s.Some? && s.value != ""
  }

  /** `subordinates !== undefined && subordinates.length > 0`. */
  predicate Nonempty(subordinates: Option<seq<string>>) {
    subordinates.Some? && |subordinates.value| > 0
  }

  /** `if (subordinateId)`: a missing id and 0 are falsy. */
  predicate TruthyId(id: Option<int>) {
    id.Some? && id.value != 0
  }

  // ---------------------------------------------------------------- createUser

  /** Lines 27-51: the role-shape checks, made before the store is read. A body without a role
      passes them whatever it holds. */
  function ShapeError(dto: CreateUserDto): (e: Option<Error>)
    ensures dto.role == Some(Admin) ==> (e.Some? <==> Nonempty(dto.subordinates) || dto.bossId.Some?)
    ensures dto.role == Some(User) ==> (e.Some? <==> !Truthy(dto.bossId) || Nonempty(dto.subordinates))
    ensures dto.role == Some(Boss) ==> (e.Some? <==> !Nonempty(dto.subordinates))
    ensures dto.role.None? ==> e.None?
    ensures e.Some? ==> e.value.BadRequest?
  {
    match dto.role
    case Some(Admin) =>
      if Nonempty(dto.subordinates) || dto.bossId.Some? then Some(BadRequest(AdminShape)) else None
    case Some(User) =>
      if !Truthy(dto.bossId) || Nonempty(dto.subordinates) then Some(BadRequest(UserShape)) else None
    case Some(Boss) =>
      if !Nonempty(dto.subordinates) then Some(BadRequest(BossShape)) else None
    case None => None
  }

  /** The emails of the table. */
  function Emails(users: map<int, UserRecord>): set<string> {
    set k | k in users :: users[k].email
  }

  /** Lines 53-59: `findOne({ where: { email } })` finds a row. With the email undefined the ORM
      drops the condition, so any row at all is found. */
  predicate EmailTaken(users: map<int, UserRecord>, email: Option<string>)
  {
    match email
    case Some(e) => e in Emails(users)
    case None => users.Keys != {}
  }

  /** `findOne({ where: { id } })`. With the id undefined the ORM drops the condition and the
      first row of the scan comes back: the least id, or nothing in an empty table. */
  function FindOne(users: map<int, UserRecord>, id: Option<int>): (r: Option<int>)
    ensures id.Some? ==> r == if id.value in users then id else None
    ensures id.None? ==> (r.Some? <==> users.Keys != {})
    ensures r.Some? ==> r.value in users
    ensures id.None? && r.Some? ==> forall k | k in users :: r.value <= k
  {
    match id
    case Some(v) => if v in users then Some(v) else None
    case None => if users.Keys == {} then None else Some(Least(users.Keys))
  }

  /** Line 64: the boss lookup with the body's string `bossId`, which PostgreSQL reads as an
      `integer` when it compares it with the id column. A string it cannot read is a database
      error; otherwise the row with that id, if any, is found. */
  function BossLookup(users: map<int, UserRecord>, bossId: Option<string>): (r: Result<Option<int>, Error>)
    ensures bossId.None? ==> r == Success(FindOne(users, None))
    ensures bossId.Some? && PgInt4(bossId.value).Failure? ==> r == Failure(PgInt4(bossId.value).error)
    ensures bossId.Some? && PgInt4(bossId.value).Success? ==> r == Success(FindOne(users, Some(PgInt4(bossId.value).value)))
    ensures r.Failure? ==> r.error.QueryFailed?
    ensures r.Success? && r.value.Some? ==> r.value.value in users
  {
    match bossId
    case None => Success(FindOne(users, None))
    case Some(s) =>
      match PgInt4(s)
      case Failure(e) => Failure(e)
      case Success(v) => Success(FindOne(users, Some(v)))
  }

  /** The decimal form of a 32-bit id finds the row with that id, or nothing; with text after
      the digits the lookup fails, although `parseInt` would have read the id. */
  lemma BossLookupByDecimal(users: map<int, UserRecord>, b: nat, tail: string)
    requires b <= Int4Max
    ensures BossLookup(users, Some(Decimal(b))) == Success(if b in users then Some(b) else None)
    ensures tail != [] && !IsDigit(tail[0]) ==> BossLookup(users, Some(Decimal(b) + tail)).Failure?
  {
    PgInt4ReadsDecimal(b);
    if tail != [] && !IsDigit(tail[0]) {
      PgInt4RefusesTrailingText(b, tail);
    }
  }

  /** Lines 71-76: `subordinates.map((subId) => parseInt(subId, 10))`, sent as the parameters of
      `In(...)`; PostgreSQL refuses the first one that is NaN or outside 32 bits. */
  function SubordinateIds(subordinates: seq<string>): (r: Result<seq<int>, Error>)
    ensures r.Success? ==> |r.value| == |subordinates|
    ensures r.Success? ==> forall i | 0 <= i < |subordinates| :: ParseInt(subordinates[i]) == Some(r.value[i])
    ensures r.Failure? <==> exists i | 0 <= i < |subordinates| :: AsInt4(ParseInt(subordinates[i])).Failure?
    ensures r.Failure? ==> r.error.QueryFailed?
  {
    if subordinates == [] then Success([])
    else
      match AsInt4(ParseInt(subordinates[0]))
      case Failure(e) => Failure(e)
      case Success(v) =>
        match SubordinateIds(subordinates[1..])
        case Failure(e) =>
          assert forall i | 0 <= i < |subordinates| - 1 :: subordinates[1..][i] == subordinates[i + 1];
          Failure(e)
        case Success(vs) => Success([v] + vs)
  }

  /** The ids of `ks` that are listed in `ids`, in the order of `ks`. */
  function Among(ks: seq<int>, ids: seq<int>): (r: seq<int>)
    ensures forall k {:trigger k in r} :: k in r <==> k in ks && k in ids
  {
    if ks == [] then []
    else if ks[0] in ids then [ks[0]] + Among(ks[1..], ids)
    else Among(ks[1..], ids)
  }

  /** Line 74: `find({ where: { id: In(ids) } })`: the rows whose id is listed, in scan order;
      an id without a row contributes nothing. */
  function FindIn(users: map<int, UserRecord>, ids: seq<int>): (r: seq<int>)
    ensures forall k {:trigger k in r} :: k in r <==> k in users && k in ids
  {
    Among(Ids(users), ids)
  }

  /** What a successful createUser saves: the new row's boss, and the rows the save repoints to
      the new row (`None` when the body listed no subordinates). */
  datatype Plan = Plan(boss: int, subordinates: Option<seq<int>>)

  const HashArguments := "data and salt arguments required"
  const NameNotNull := "null value in column \"name\" of relation \"users\" violates not-null constraint"

  /** The checks made before the boss lookup have passed: the role shape (lines 27-51), the
      email lookup (lines 53-59) and the hashing of the password (line 62), which bcrypt refuses
      when the body has no password. */
  predicate Prechecked(users: map<int, UserRecord>, dto: CreateUserDto) {
    ShapeError(dto).None? && !EmailTaken(users, dto.email) && dto.password.Some?
  }

  /** The boss lookup (lines 64-67) found a row, and the subordinate ids, if the body lists any,
      were accepted by the database (lines 70-76). */
  predicate Resolved(users: map<int, UserRecord>, dto: CreateUserDto) {
    && BossLookup(users, dto.bossId).Success? && BossLookup(users, dto.bossId).value.Some?
    && (Nonempty(dto.subordinates) ==> SubordinateIds(dto.subordinates.value).Success?)
  }

  /** The outcome of createUser's checks and lookups, lines 27-87, in the order the source makes
      them: the role shape, the email, the password hash, the boss, the subordinate ids, and at
      the insert the NOT NULL name column. At line 78 each element of the `find` result is a
      row, so "some element is not a row" is false and that check cannot fail. */
  function Admission(users: map<int, UserRecord>, dto: CreateUserDto): (r: Result<Plan, Error>)
    ensures ShapeError(dto).Some? ==> r == Failure(ShapeError(dto).value)
    ensures ShapeError(dto).None? && EmailTaken(users, dto.email) ==> r == Failure(Conflict(EmailInUse))
    ensures ShapeError(dto).None? && !EmailTaken(users, dto.email) && dto.password.None? ==>
      r == Failure(Thrown(HashArguments))
    ensures Prechecked(users, dto) && BossLookup(users, dto.bossId).Failure? ==>
      r == Failure(BossLookup(users, dto.bossId).error)
    ensures Prechecked(users, dto) && BossLookup(users, dto.bossId) == Success(None) ==>
      r == Failure(BadRequest(BossNotFound))
    ensures Prechecked(users, dto) && BossLookup(users, dto.bossId).Success? && BossLookup(users, dto.bossId).value.Some?
            && Nonempty(dto.subordinates) && SubordinateIds(dto.subordinates.value).Failure? ==>
      r == Failure(SubordinateIds(dto.subordinates.value).error)
    ensures Prechecked(users, dto) && Resolved(users, dto) && dto.name.None? ==>
      r == Failure(QueryFailed(NameNotNull))
    ensures r.Success? <==> Prechecked(users, dto) && Resolved(users, dto) && dto.name.Some?
    ensures r.Success? ==> dto.email.Some? && dto.email.value !in Emails(users)
    ensures r.Success? ==> BossLookup(users, dto.bossId) == Success(Some(r.value.boss)) && r.value.boss in users
    ensures r.Success? ==> (r.value.subordinates.Some? <==> Nonempty(dto.subordinates))
    ensures r.Success? && r.value.subordinates.Some? ==>
      r.value.subordinates == Some(FindIn(users, SubordinateIds(dto.subordinates.value).value))
  {
    if ShapeError(dto).Some? then Failure(ShapeError(dto).value)
    else if EmailTaken(users, dto.email) then Failure(Conflict(EmailInUse))
    else if dto.password.None? then Failure(Thrown(HashArguments))
    else
      match BossLookup(users, dto.bossId)
      case Failure(e) => Failure(e)
      case Success(None) => Failure(BadRequest(BossNotFound))
      case Success(Some(b)) =>
        if !Nonempty(dto.subordinates) then Saved(dto, Plan(b, None))
        else
          match SubordinateIds(dto.subordinates.value)
          case Failure(e) => Failure(e)
          case Success(ids) =>
            var found := FindIn(users, ids);
            if exists k | k in found :: k !in users then Failure(BadRequest(SubordinatesNotFound))
            else Saved(dto, Plan(b, Some(found)))
  }

  /** Line 87 refuses an entity without a name: the insert leaves the NOT NULL column empty. */
  function Saved(dto: CreateUserDto, plan: Plan): (r: Result<Plan, Error>)
    ensures dto.name.None? <==> r == Failure(QueryFailed(NameNotNull))
    ensures dto.name.Some? <==> r == Success(plan)
  {
    if dto.name.None? then Failure(QueryFailed(NameNotNull)) else Success(plan)
  }

  /** The check at line 78 never fires: createUser never answers "One or more subordinates not
      found", whatever ids the body lists. */
  lemma SubordinateCheckNeverFires(users: map<int, UserRecord>, dto: CreateUserDto)
    ensures Admission(users, dto) != Failure(BadRequest(SubordinatesNotFound))
  {
    assert |SubordinatesNotFound| == 34;
    if ShapeError(dto).Some? {
      assert |AdminShape| == 51 && |UserShape| == 52 && |BossShape| == 29;
    } else if Prechecked(users, dto) {
      var boss := BossLookup(users, dto.bossId);
      if boss == Success(None) {
        assert |BossNotFound| == 14;
      } else if boss.Success? && Nonempty(dto.subordinates) && SubordinateIds(dto.subordinates.value).Success? {
        var found := FindIn(users, SubordinateIds(dto.subordinates.value).value);
        assert !exists k | k in found :: k !in users;
      }
    }
  }

  /** A body whose `bossId` is the decimal form of an id no row has is refused with "Boss not
      found" once the earlier checks pass; one naming an existing row gets that row as boss. */
  lemma BossIsTheRowNamed(users: map<int, UserRecord>, dto: CreateUserDto, b: nat)
    requires Prechecked(users, dto) && b <= Int4Max && dto.bossId == Some(Decimal(b))
    ensures b !in users ==> Admission(users, dto) == Failure(BadRequest(BossNotFound))
    ensures Admission(users, dto).Success? ==> b in users && Admission(users, dto).value.boss == b
  {
    BossLookupByDecimal(users, b, []);
  }

  /** The row line 87 inserts. The role column takes its default when the body has none. */
  function SavedRecord(dto: CreateUserDto, hash: string -> string, boss: int): (row: UserRecord)
    requires dto.email.Some? && dto.name.Some? && dto.password.Some?
    ensures row.email == dto.email.value && row.name == dto.name.value && row.password == hash(dto.password.value)
    ensures row.role == StoredRole(dto.role) && row.boss == Some(boss)
  {
    UserRecord(dto.email.value, dto.name.value, hash(dto.password.value), StoredRole(dto.role), Some(boss))
  }

  /** The table after line 87: the new row under `id`, and the boss edge of each listed
      subordinate pointed at it (the save of a one-to-many relation). */
  function Inserted(users: map<int, UserRecord>, id: int, row: UserRecord, subordinates: Option<seq<int>>)
    : (r: map<int, UserRecord>)
    ensures r.Keys == users.Keys + {id}
    ensures r[id] == row
    ensures forall k | k in users && k != id && subordinates.Some? && k in subordinates.value ::
      r[k] == users[k].(boss := Some(id))
    ensures forall k | k in users && k != id && !(subordinates.Some? && k in subordinates.value) :: r[k] == users[k]
  {
    map k | k in users.Keys + {id} ::
      if k == id then row
      else if subordinates.Some? && k in subordinates.value then users[k].(boss := Some(id))
      else users[k]
  }

  /** Inserting a row whose boss exists and whose email is new, under the next sequence value,
      keeps the table valid, whichever existing rows are repointed to it. */
  lemma InsertedIsValid(users: map<int, UserRecord>, nextId: int, row: UserRecord, subordinates: Option<seq<int>>)
    requires StoreValid(users, nextId)
    requires row.boss.Some? && row.boss.value in users && row.email !in Emails(users)
    ensures StoreValid(Inserted(users, nextId, row, subordinates), nextId + 1)
  {
    var r := Inserted(users, nextId, row, subordinates);
    assert nextId !in users;
    forall k | k in r && r[k].boss.Some? ensures r[k].boss.value in r {
      if k != nextId {
        assert r[k].boss == users[k].boss || r[k].boss == Some(nextId);
      }
    }
    forall k, j | SameEmail(r, k, j) ensures k == j {
      if k != nextId && j != nextId {
        assert SameEmail(users, k, j);
      } else if k != j {
        EmailListed(users, if k == nextId then j else k);
        assert false;
      }
    }
  }

  lemma EmailListed(users: map<int, UserRecord>, k: int)
    ensures k in users ==> users[k].email in Emails(users)
  {
  }

  /** After an accepted create, the rows reporting to the new user are exactly the subordinates
      the lookup found; no row reported to the new id before. */
  lemma NewUserAdoptsFoundSubordinates(users: map<int, UserRecord>, nextId: int, dto: CreateUserDto,
                                       hash: string -> string)
    requires StoreValid(users, nextId) && Admission(users, dto).Success?
    ensures var plan := Admission(users, dto).value;
      var r := Inserted(users, nextId, SavedRecord(dto, hash, plan.boss), plan.subordinates);
      forall k | k in r :: r[k].boss == Some(nextId) <==> plan.subordinates.Some? && k in plan.subordinates.value
  {
    var plan := Admission(users, dto).value;
    var r := Inserted(users, nextId, SavedRecord(dto, hash, plan.boss), plan.subordinates);
    assert nextId !in users;
    forall k | k in r
      ensures r[k].boss == Some(nextId) <==> plan.subordinates.Some? && k in plan.subordinates.value
    {
      if k == nextId {
        assert plan.boss in users;
      } else if !(plan.subordinates.Some? && k in plan.subordinates.value) {
        assert r[k] == users[k];
      }
    }
  }

  /** An accepted body without a `bossId` gets the first row of the scan as its boss: the user
      with the least id. An administrator is always such a body. */
  lemma DefaultBossIsLeastId(users: map<int, UserRecord>, dto: CreateUserDto)
    requires Admission(users, dto).Success?
    requires dto.bossId.None? || dto.role == Some(Admin)
    ensures var b := Admission(users, dto).value.boss;
      forall k | k in users :: b <= k
  {
    assert dto.bossId.None?;
  }

  /** Every accepted body needs a row to serve as boss, so an empty table stays empty: the
      first user can never be created through this service. */
  lemma {:induction false} FirstUserCannotBeCreated(dto: CreateUserDto)
    ensures Admission(map[], dto).Failure?
    ensures ShapeError(dto).None? ==>
      || Admission(map[], dto).error == BadRequest(BossNotFound)
      || Admission(map[], dto).error.QueryFailed?
      || Admission(map[], dto).error == Thrown(HashArguments)
  {
    var empty: map<int, UserRecord> := map[];
    assert Emails(empty) == {};
    assert empty.Keys == {};
  }

  /** Listed subordinate ids that have no row are dropped without an error; only the found
      rows are repointed. */
  lemma UnknownSubordinatesDropped(users: map<int, UserRecord>, dto: CreateUserDto, ids: seq<int>, boss: int)
    requires Prechecked(users, dto) && dto.name.Some?
    requires BossLookup(users, dto.bossId) == Success(Some(boss))
    requires Nonempty(dto.subordinates) && SubordinateIds(dto.subordinates.value) == Success(ids)
    ensures Admission(users, dto) == Success(Plan(boss, Some(FindIn(users, ids))))
    ensures forall k | k in ids :: k in FindIn(users, ids) <==> k in users
  {
  }

  /** A body without an email is refused as a duplicate whenever the table has a row, since the
      email lookup then finds the first row; it is never accepted. */
  lemma MissingEmailIsInUse(users: map<int, UserRecord>, dto: CreateUserDto)
    requires dto.email.None?
    ensures ShapeError(dto).None? && users.Keys != {} ==> Admission(users, dto) == Failure(Conflict(EmailInUse))
    ensures Admission(users, dto).Failure?
  {
    if ShapeError(dto).None? && users.Keys == {} && dto.password.Some? {
      assert BossLookup(users, dto.bossId).Success? ==> BossLookup(users, dto.bossId).value.None?;
    }
  }

  // ---------------------------------------------------------------- updateBoss

  /** The boss edge updateBoss moves: a direct subordinate's, or the actor's own. */
  datatype Edit = SubordinateEdge(subordinate: int, newBoss: int) | OwnEdge(newBoss: int)

  /** The outcome of updateBoss's lookups and checks, lines 97-133, in the source's order. The
      actor's direct subordinates are the rows whose boss it is; nothing looks for cycles. */
  function Reassignment(users: map<int, UserRecord>, userId: int, dto: UpdateUserDto): (r: Result<Edit, Error>)
    ensures userId !in users ==> r == Failure(NotFound("User", userId))
    ensures userId in users && dto.newBossId.Some? && dto.newBossId.value !in users ==>
      r == Failure(NotFound("New boss", dto.newBossId.value))
    ensures userId in users && FindOne(users, dto.newBossId).Some? && users[FindOne(users, dto.newBossId).value].role == User ==>
      r == Failure(BadRequest(UserCannotBeBoss))
    ensures r.Success? ==> userId in users && r.value.newBoss == FindOne(users, dto.newBossId).value
    ensures r.Success? ==> users[r.value.newBoss].role != User
    ensures r.Success? ==> (r.value.SubordinateEdge? <==> TruthyId(dto.subordinateId))
    ensures r.Success? && r.value.SubordinateEdge? ==>
      (r.value.subordinate == dto.subordinateId.value && r.value.subordinate in users
       && users[r.value.subordinate].boss == Some(userId))
    ensures (r.Failure? && userId in users && FindOne(users, dto.newBossId).Some?
             && users[FindOne(users, dto.newBossId).value].role != User) ==>
      && TruthyId(dto.subordinateId)
      && r == Failure(NotFound("Subordinate", dto.subordinateId.value))
      && !(dto.subordinateId.value in users && users[dto.subordinateId.value].boss == Some(userId))
  {
    if userId !in users then Failure(NotFound("User", userId))
    else match FindOne(users, dto.newBossId)
      case None => Failure(NotFound("New boss", dto.newBossId.value))
      case Some(b) =>
        if users[b].role == User then Failure(BadRequest(UserCannotBeBoss))
        else if TruthyId(dto.subordinateId) then
          var s := dto.subordinateId.value;
          if s !in Children(users, userId) then Failure(NotFound("Subordinate", s))
          else Success(SubordinateEdge(s, b))
        else Success(OwnEdge(b))
  }

  /** The table after the save at line 135: only the subordinates are written back, so only a
      subordinate's edge reaches the table. */
  function Persisted(users: map<int, UserRecord>, edit: Edit): (r: map<int, UserRecord>)
    requires edit.SubordinateEdge? ==> edit.subordinate in users
    ensures r.Keys == users.Keys
    ensures forall k | k in users :: r[k].role == users[k].role && r[k].email == users[k].email
    ensures edit.OwnEdge? ==> r == users
    ensures edit.SubordinateEdge? ==>
      (r[edit.subordinate] == users[edit.subordinate].(boss := Some(edit.newBoss))
       && forall k | k in users && k != edit.subordinate :: r[k] == users[k])
  {
    match edit
    case OwnEdge(_) => users
    case SubordinateEdge(s, b) => users[s := users[s].(boss := Some(b))]
  }

  /** Nothing stops a boss from being made its own boss: an actor may hand a subordinate of role
      `boss` to that very subordinate. */
  lemma SelfLoopAccepted()
    ensures var users := map[1 := UserRecord("a@x", "A", "h", Boss, None),
                             2 := UserRecord("b@x", "B", "h", Boss, Some(1))];
      && Reassignment(users, 1, UpdateUserDto(Some(2), Some(2))) == Success(SubordinateEdge(2, 2))
      && Persisted(users, SubordinateEdge(2, 2))[2].boss == Some(2)
  {
    var users := map[1 := UserRecord("a@x", "A", "h", Boss, None),
                     2 := UserRecord("b@x", "B", "h", Boss, Some(1))];
    assert 2 in Children(users, 1);
  }

  // ---------------------------------------------------------------- getAllUsers

  /** getAllUsers starts its recursion from every user, so a subordinate comes back once as a
      seed and again below its boss; the Map keeps one node for it. */
  lemma {:induction false} AllUsersRepeatsRows()
    ensures var users := map[1 := UserRecord("a@x", "A", "h", Admin, None),
                             2 := UserRecord("b@x", "B", "h", User, Some(1))];
      && AllUsersIds(users, Window(0, 10)) == [1, 2, 2]
      && |Assembled(AllUsersPage(users, Window(0, 10)).value)| == 2
  {
    var users := map[1 := UserRecord("a@x", "A", "h", Admin, None),
                     2 := UserRecord("b@x", "B", "h", User, Some(1))];
    var kids := TwoUserIndex(users);
    assert Expand(kids, [1, 2]) == [2] by {
      assert [1, 2][1..] == [2];
    }
    assert Take(kids, [2], 8) == [2] + Take(kids, Expand(kids, [2]), 7);
    assert Take(kids, [1, 2], 10) == [1, 2] + Take(kids, [2], 8);
    var ids := AllUsersIds(users, Window(0, 10));
    assert ids == [1, 2, 2];
    var rows := AllUsersPage(users, Window(0, 10)).value;
    assert rows == RowsOf(users, ids, true);
    FirstSeenOfRepeat(rows);
  }

  /** Rows with ids 1, 2, 2 give the nodes 1 and 2, in that order. */
  lemma FirstSeenOfRepeat(rows: seq<Row>)
    requires |rows| == 3 && rows[0].id == 1 && rows[1].id == 2 && rows[2].id == 2
    ensures FirstSeen(rows) == [1, 2]
  {
    var one, two := rows[..1], rows[..2];
    assert one[..0] == [];
    assert FirstSeen(one) == [1];
    assert two[..1] == one;
    assert FirstSeen(two) == [1, 2];
    assert rows[..2] == two;
  }

  /** The scan order and the join index of the two-user table above. */
  lemma TwoUserIndex(users: map<int, UserRecord>) returns (kids: map<int, seq<int>>)
    requires users == map[1 := UserRecord("a@x", "A", "h", Admin, None),
                          2 := UserRecord("b@x", "B", "h", User, Some(1))]
    ensures kids == ChildIndex(users) && Ids(users) == [1, 2]
    ensures kids.Keys == {1, 2} && kids[1] == [2] && kids[2] == []
  {
    assert Least({1, 2}) == 1;
    assert {1, 2} - {1} == {2};
    assert Least({2}) == 2;
    assert {2} - {2} == {};
    assert Ids(users) == [1, 2] by {
      assert users.Keys == {1, 2};
      assert Ascending({2}) == [2];
    }
    kids := ChildIndex(users);
    assert kids[1] == [2] by {
      assert Children(users, 1) == ChildrenAmong(users, [1, 2], 1);
    }
    assert kids[2] == [] by {
      assert Children(users, 2) == ChildrenAmong(users, [1, 2], 2);
    }
  }

  // ---------------------------------------------------------------- the service

  class UsersService {
    /** The `users` table, keyed by id. */
    var users: map<int, UserRecord>
    /** The next value of the table's SERIAL id sequence. */
    var nextId: int

    ghost predicate Valid()
      reads this
    {
      StoreValid(users, nextId)
    }

    /** The service over a table in a valid state. */
    constructor (table: map<int, UserRecord>, serial: int)
      requires StoreValid(table, serial)
      ensures Valid() && users == table && nextId == serial
    {
      users, nextId := table, serial;
    }

    /** Lines 22-88. On any error nothing is saved. A body that passes every check reaches the
        insert at line 87, which draws the next sequence value before PostgreSQL checks the row;
        a refused insert does not give that value back. On success exactly one row is inserted,
        under that value, and the found subordinates now report to it. */
    method CreateUser(dto: CreateUserDto, hash: string -> string) returns (r: Result<UserEntity, Error>)
      requires Valid()
      modifies this
      ensures Valid()
      ensures Admission(old(users), dto).Failure? ==>
        && r == Failure(Admission(old(users), dto).error) && users == old(users)
        && nextId == old(nextId) + (if Prechecked(old(users), dto) && Resolved(old(users), dto) then 1 else 0)
      ensures Admission(old(users), dto).Success? ==>
        var plan := Admission(old(users), dto).value;
        && users == Inserted(old(users), old(nextId), SavedRecord(dto, hash, plan.boss), plan.subordinates)
        && nextId == old(nextId) + 1
        && r.Success? && fresh(r.value)
        && r.value.id == Some(old(nextId)) && r.value.email == dto.email && r.value.name == dto.name
        && r.value.password == Some(hash(dto.password.value)) && r.value.role == Some(StoredRole(dto.role))
        && r.value.bossId == Some(plan.boss) && r.value.subordinates == plan.subordinates
    {
      // lines 27-84: the checks and lookups, which change nothing
      var admitted := Admission(users, dto);
      if admitted.Failure? {
        if Prechecked(users, dto) && Resolved(users, dto) {
          // line 87: the insert draws an id, then the NOT NULL name column refuses the row
          var _ := NextVal();
        }
        return Failure(admitted.error);
      }
      var newUser := Insert(dto, hash, admitted.value);
      r := Success(newUser);
    }

    /** Lines 61-87 once the checks have passed: the entity is built from the body, completed
        field by field, and saved under the next sequence value. */
    method Insert(dto: CreateUserDto, hash: string -> string, plan: Plan) returns (newUser: UserEntity)
      requires Valid() && plan.boss in users
      requires dto.email.Some? && dto.name.Some? && dto.password.Some? && dto.email.value !in Emails(users)
      modifies this
      ensures Valid() && nextId == old(nextId) + 1
      ensures users == Inserted(old(users), old(nextId), SavedRecord(dto, hash, plan.boss), plan.subordinates)
      ensures fresh(newUser)
      ensures newUser.id == Some(old(nextId)) && newUser.email == dto.email && newUser.name == dto.name
      ensures newUser.password == Some(hash(dto.password.value)) && newUser.role == Some(StoredRole(dto.role))
      ensures newUser.bossId == Some(plan.boss) && newUser.subordinates == plan.subordinates
    {
      newUser := new UserEntity(Some(dto));
      newUser.password := Some(hash(dto.password.value));
      newUser.bossId := Some(plan.boss);
      if plan.subordinates.Some? {
        newUser.subordinates := plan.subordinates;
      }
      // line 87: the row gets the next sequence value and the role column its default; the save
      // leaves the fields already set on the entity as they were
      ghost var fields := (newUser.email, newUser.name, newUser.password, newUser.bossId, newUser.subordinates);
      var id := Save(SavedRecord(dto, hash, plan.boss), newUser.subordinates);
      assert fields == (newUser.email, newUser.name, newUser.password, newUser.bossId, newUser.subordinates);
      newUser.id := Some(id);
      newUser.role := Some(StoredRole(dto.role));
    }

    /** The insert at line 87: the row takes the next sequence value, and the rows listed as
        its subordinates are repointed to it. */
    method Save(row: UserRecord, subordinates: Option<seq<int>>) returns (id: int)
      requires Valid() && row.boss.Some? && row.boss.value in users && row.email !in Emails(users)
      modifies this
      ensures id == old(nextId) && nextId == id + 1
      ensures users == Inserted(old(users), id, row, subordinates)
      ensures Valid()
    {
      InsertedIsValid(users, nextId, row, subordinates);
      id := NextVal();
      users := Inserted(users, id, row, subordinates);
    }

    /** `nextval` on the SERIAL sequence: the value is used up whatever becomes of the row. */
    method NextVal() returns (id: int)
      requires Valid()
      modifies this
      ensures id == old(nextId) && nextId == id + 1 && users == old(users)
      ensures Valid()
    {
      id := nextId;
      nextId := nextId + 1;
    }

    /** Lines 89-91: the row as the ORM hydrates it, without its relations or its password
        (the column is not selected). An undefined id finds the first row of the scan. */
    method FindById(id: Option<int>) returns (r: Option<UserEntity>)
      ensures FindOne(users, id).None? ==> r.None?
      ensures FindOne(users, id).Some? ==>
        var k := FindOne(users, id).value;
        && r.Some? && fresh(r.value)
        && r.value.id == Some(k) && r.value.email == Some(users[k].email) && r.value.name == Some(users[k].name)
        && r.value.role == Some(users[k].role)
        && r.value.password.None? && r.value.bossId.None? && r.value.subordinates.None?
    {
      var found := FindOne(users, id);
      if found.None? {
        return None;
      }
      var k := found.value;
      var user := new UserEntity(None);
      user.id, user.email, user.name, user.role := Some(k), Some(users[k].email), Some(users[k].name), Some(users[k].role);
      r := Some(user);
    }

    /** Lines 93-138. On any error nothing changes. On success only a subordinate's boss edge
        reaches the table; the actor's own edge is changed on the returned object alone. */
    method UpdateBoss(userId: int, dto: UpdateUserDto) returns (r: Result<UserEntity, Error>)
      requires Valid()
      modifies this
      ensures Valid() && nextId == old(nextId)
      ensures Reassignment(old(users), userId, dto).Failure? ==>
        r == Failure(Reassignment(old(users), userId, dto).error) && users == old(users)
      ensures Reassignment(old(users), userId, dto).Success? ==>
        var edit := Reassignment(old(users), userId, dto).value;
        && users == Persisted(old(users), edit)
        && r.Success? && fresh(r.value)
        && r.value.id == Some(userId) && r.value.role == Some(old(users)[userId].role)
        && r.value.email == Some(old(users)[userId].email) && r.value.name == Some(old(users)[userId].name)
        && r.value.password.None?
        && r.value.subordinates == Some(Children(old(users), userId))
        && r.value.bossId == if edit.OwnEdge? then Some(edit.newBoss) else None
    {
      // lines 97-133: the lookups and checks, which change nothing
      var outcome := Reassignment(users, userId, dto);
      if outcome.Failure? {
        return Failure(outcome.error);
      }
      var user := Apply(userId, Children(users, userId), outcome.value);
      r := Success(user);
    }

    /** Lines 97-100 and 127-135 once the checks have passed: the actor is loaded with its
        direct subordinates `subordinates`, and the edit is made. Loading the actor before the
        checks, as the source does, changes nothing, so it is done here. */
    method Apply(userId: int, subordinates: seq<int>, edit: Edit) returns (user: UserEntity)
      requires Valid() && userId in users && edit.newBoss in users
      requires edit.SubordinateEdge? ==> edit.subordinate in users
      modifies this
      ensures Valid() && nextId == old(nextId) && users == Persisted(old(users), edit)
      ensures fresh(user) && user.id == Some(userId) && user.role == Some(old(users)[userId].role)
      ensures user.email == Some(old(users)[userId].email) && user.name == Some(old(users)[userId].name)
      ensures user.password.None?
      ensures user.subordinates == Some(subordinates)
      ensures user.bossId == if edit.OwnEdge? then Some(edit.newBoss) else None
    {
      user := new UserEntity(None);
      user.id, user.email, user.name, user.role :=
        Some(userId), Some(users[userId].email), Some(users[userId].name), Some(users[userId].role);
      user.subordinates := Some(subordinates);
      match edit {
        case SubordinateEdge(s, b) =>
          // line 135 saves the subordinates, so the subordinate's new boss edge is written
          ghost var fields := (user.id, user.email, user.name, user.password, user.role, user.subordinates, user.bossId);
          SetBoss(s, b);
          assert fields == (user.id, user.email, user.name, user.password, user.role, user.subordinates, user.bossId);
        case OwnEdge(b) =>
          // line 129 changes the actor's own edge, on the object only
          user.bossId := Some(b);
      }
    }

    /** The write at line 135 for one subordinate: its boss edge now points at `b`. */
    method SetBoss(s: int, b: int)
      requires Valid() && s in users && b in users
      modifies this
      ensures users == old(users)[s := old(users)[s].(boss := Some(b))] && nextId == old(nextId)
      ensures Valid()
    {
      users := users[s := users[s].(boss := Some(b))];
      assert forall k, j | SameEmail(users, k, j) :: SameEmail(old(users), k, j);
    }

    /** Lines 140-199, with the JavaScript defaults for the missing arguments. */
    method GetUser(userId: Option<int>, page: Option<int>, limit: Option<int>, offset: Option<int>)
      returns (r: Result<seq<Node>, Error>)
      ensures var q := UserPage(users, userId, PageArgs(page, limit, offset));
        && (q.Failure? ==> r == Failure(q.error))
        && (q.Success? ==> r == Success(Assembled(q.value)))
      ensures r.Failure? <==> WindowError(PageArgs(page, limit, offset)).Some?
    {
      var w := PageArgs(page, limit, offset);
      var q := UserPage(users, userId, w);
      if q.Failure? {
        return Failure(q.error);
      }
      var nodes := AssembleTree(q.value);
      r := Success(nodes);
    }

    /** Lines 201-267, with the JavaScript defaults for the missing arguments. */
    method GetAllUsers(page: Option<int>, limit: Option<int>, offset: Option<int>)
      returns (r: Result<seq<Node>, Error>)
      ensures var q := AllUsersPage(users, PageArgs(page, limit, offset));
        && (q.Failure? ==> r == Failure(q.error))
        && (q.Success? ==> r == Success(Assembled(q.value)))
      ensures r.Failure? <==> WindowError(PageArgs(page, limit, offset)).Some?
    {
      var w := PageArgs(page, limit, offset);
      var q := AllUsersPage(users, w);
      if q.Failure? {
        return Failure(q.error);
      }
      var nodes := AssembleTree(q.value);
      r := Success(nodes);
    }
  }
}
