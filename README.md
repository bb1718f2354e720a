# org-manager hierarchy core, in Dafny

org-manager is a NestJS service that keeps an organisation's people in one PostgreSQL table
`users`. Each row has an id, an email, a name, a password hash, a role (`admin`, `boss` or
`user`) and a nullable boss id. The boss edges form the hierarchy, and the subordinates of a
user are the rows whose boss it is. This project models the core of that service:

- `UsersService` (`users_service.dfy`) is a class over the table. The table is kept as a map
  from id to row, together with the next value of the SERIAL id sequence. The class has these
  operations:
  - `CreateUser`: the role-shape checks, the duplicate-email check, the boss lookup, the
    resolution of subordinate ids and the insert;
  - `FindById`;
  - `UpdateBoss`: moves one boss edge;
  - `GetUser` and `GetAllUsers`: the two paged hierarchy reads.
- The reads' recursive queries (`hierarchy.dfy`) are modelled as a stream that the database
  pulls level by level, only as far as OFFSET and LIMIT need (`pagination.dfy`).
- The in-memory tree assembly (`tree_assembly.dfy`) has two steps. First a Map keyed by id
  takes every row, and the last row for an id wins. Then every node is pushed onto its boss's
  `subordinates` when that boss is in the same page. Both loops are methods proved against a
  specification function.
- The two ways the service reads numbers out of strings (`numeric_input.dfy`): JavaScript's
  `parseInt` for the subordinate ids, and PostgreSQL's `integer` input for the boss id.
- The entity class with its constructor (`user_entity.dfy`).
- The two guards (`roles_guard.dfy`, `auth_guard.dfy`): pure decisions over the request's
  user and the route's roles metadata.

The database behaviour the code relies on is stated explicitly:
- Lookups scan in ascending id order.
- `findOne` with an undefined id drops its condition and returns the first row.
- A negative OFFSET or LIMIT is refused.
- A NaN or out-of-range parameter of `In(...)` is refused.
- Saving an entity with a one-to-many array repoints the listed rows.

The service's quirks are kept as written, and lemmas state them:
- The subordinate check at line 78 can never fire, and unknown subordinate ids are dropped.
- Without `bossId`, the boss is the user with the least id, and the first user can never be
  created.
- A body without a name is refused by the insert, which has already used up an id.
- `updateBoss` persists the subordinate's edge but not the actor's own.
- `updateBoss` has no cycle check, so a boss can become its own boss.
- `getUser` returns only the user and its direct subordinates. It always answers, even when
  `updateBoss` has made the boss edges cyclic.
- `getAllUsers` returns rows more than once before the Map removes the duplicates.
- A body without an email, given to the service directly, is refused as a duplicate,
  because the email lookup drops its undefined condition. The registration route's
  validation pipe refuses such a body earlier.

## Model

| member | source | states |
|---|---|---|
| UserEntities.StoredRole | src/users/entities/user.entity.ts:36-43 | an unset role is stored as the column default `user`; a set role is stored unchanged |
| UserEntities.UserEntity.constructor | src/users/entities/user.entity.ts:61-68 | without a body every field stays unset; with one, exactly email, password, name and role are copied as the body has them (absent when it lacks them), and the id, boss edge and subordinates stay unset |
| NumericInput.LeadingDigits | src/users/users.service.ts:71-73 | the result is the length of the maximal run of digits that starts the string |
| NumericInput.ParseInt | src/users/users.service.ts:71-73 | `parseInt(s, 10)` is NaN exactly when no digit follows the optional sign; a number read after a leading `-` is never positive, and one read without it is never negative |
| NumericInput.ParseIntReadsDecimal | src/users/users.service.ts:71-73 | `parseInt` reads back the decimal form of every natural number, whatever non-digit text follows it |
| NumericInput.ParseIntReadsNegative | src/users/users.service.ts:71-73 | `parseInt` reads `-` followed by the decimal form of `n` as `-n`, whatever non-digit text follows |
| NumericInput.AsInt4 | src/users/users.service.ts:74-76 | a parameter of `In(...)` is accepted iff it is a number in the 32-bit range, and is then passed unchanged; otherwise the database raises an error |
| NumericInput.PgInt4 | src/users/users.service.ts:64 | a string compared with the id column is accepted only when everything after the optional sign is digits, and only as a 32-bit integer that `parseInt` reads the same way; a refusal is a database error |
| NumericInput.PgInt4ReadsDecimal | src/users/users.service.ts:64 | the decimal form of every non-negative 32-bit integer is read back exactly, and the decimal form of a larger number is refused |
| NumericInput.PgInt4ReadsNegative | src/users/users.service.ts:64 | `-` followed by the decimal form of `n` is read as `-n` down to the least 32-bit integer, and refused below it |
| NumericInput.PgInt4RefusesTrailingText | src/users/users.service.ts:64-73 | a decimal followed by non-digit text is refused by PostgreSQL, while `parseInt` reads the number and ignores the text |
| Pagination.PageArgs | src/users/users.service.ts:141-144 | the defaults are page 1 and limit 10; the offset defaults to `(page - 1) * limit`; a given argument is used unchanged |
| Pagination.WindowError | src/users/users.service.ts:161-165 | a window is refused iff its offset or its limit is negative, and the refusal is a database error |
| Pagination.Need | src/users/users.service.ts:230-232 | the database pulls no rows for LIMIT 0, and otherwise `offset + limit` rows |
| Pagination.Slice | src/users/users.service.ts:161-165 | a page holds at most `limit` rows; it holds exactly `limit` rows when enough rows exist, and otherwise the rest after `offset`; row `i` of the page is input row `offset + i` |
| Pagination.SliceNeedsOnlyPrefix | src/users/users.service.ts:230-232 | pulling only `Need` rows of the stream gives the same page as pulling all of them |
| Hierarchy.Ids | src/users/users.service.ts:215-216 | the scan lists every user exactly once |
| Hierarchy.IdsAscending | src/users/users.service.ts:215-216 | the scan lists the ids in strictly ascending order |
| Hierarchy.Children | src/users/users.service.ts:98-101 | the direct subordinates of `p` are exactly the users whose boss is `p` |
| Hierarchy.ChildIndex | src/users/users.service.ts:227-228 | the join index has one entry per user, namely that user's direct subordinates |
| Hierarchy.ExpandMembers | src/users/users.service.ts:227-228 | a user is in the next level of the recursion iff its boss is in the current level |
| Hierarchy.Take | src/users/users.service.ts:206-232 | the stream yields at most `need` ids, and the seed level is its prefix |
| Hierarchy.ExpandDistinct | src/users/users.service.ts:227-228 | the join repeats no row within one level when the level before repeats none, since each row has one boss |
| Hierarchy.TakeWithin | src/users/users.service.ts:206-229 | every id the recursion yields is a user's |
| Hierarchy.AllUsersIds | src/users/users.service.ts:206-238 | getAllUsers reads at most `Need` ids, all of them users |
| Hierarchy.AllUsersSeedsEveryone | src/users/users.service.ts:207-216 | getAllUsers' stream opens with every user in scan order, before any row repeats |
| Hierarchy.PastSeedReports | src/users/users.service.ts:216-228 | past the first level, the stream holds only users whose boss is a user |
| Hierarchy.SeedOnce | src/users/users.service.ts:206-228 | with every user seeded once and the seed pulled whole, a user that reports to no user occurs exactly once |
| Hierarchy.SeedTwice | src/users/users.service.ts:206-228 | with every user seeded once and twice the seed pulled, every user whose boss is a user occurs at least twice |
| Hierarchy.AllUsersRepeats | src/users/users.service.ts:206-232 | getAllUsers' rows past position `|users|` are users whose boss is a user; a user without a boss occurs exactly once when the window reaches `|users|` rows, and every other user at least twice when it reaches `2 * |users|` rows |
| Hierarchy.AllUsersPage | src/users/users.service.ts:201-238 | a negative window is refused; otherwise the query answers, with at most `limit` rows, each a user's and with its role |
| Hierarchy.Matching | src/users/users.service.ts:156-157 | a row of a level passes the filter iff it is the user itself or its boss is the user |
| Hierarchy.TakeMatching | src/users/users.service.ts:146-165 | a finished stream yields at most `need` ids, and all of them pass the filter |
| Hierarchy.UserAnchor | src/users/users.service.ts:148-150 | the recursion is seeded with the user's row, or with nothing for a missing or unknown id |
| Hierarchy.UserPage | src/users/users.service.ts:140-171 | a negative window is refused; otherwise the query answers, on every store, with at most `limit` rows, each the user itself or a user whose boss it is, and none with a role |
| Hierarchy.LevelMembers | src/users/users.service.ts:146-160 | the `t`-th level of getUser's recursion holds exactly the users `t` boss edges below the user |
| Hierarchy.SeedRecurs | src/users/users.service.ts:146-165 | a level still non-empty `|users|` levels on lies on a cycle of boss edges through the user itself, so the user's own row, which passes the filter, recurs within those levels |
| Hierarchy.UserStreamAnswers | src/users/users.service.ts:146-171 | the LIMIT stops getUser's recursion on every store, cycles included: within the levels the model follows, the stream yields the rows the window needs or ends |
| Hierarchy.UserIdsAreOneLevel | src/users/users.service.ts:146-157 | on a store without cycles the filtered stream is the user followed by its direct subordinates, cut at `need` |
| Hierarchy.UserPageIsOneLevel | src/users/users.service.ts:140-171 | on a store without cycles, getUser's page is the window over the user's row followed by its direct subordinates' rows; it is empty for an id that no user has |
| TreeAssembly.FirstSeen | src/users/users.service.ts:173-189 | the Map's keys are exactly the ids of the page |
| TreeAssembly.FirstSeenDistinct | src/users/users.service.ts:173-189 | the Map holds each id once |
| TreeAssembly.Latest | src/users/users.service.ts:186 | the Map's values are keyed by the rows' own ids, one for each id of the page |
| TreeAssembly.LatestIsLast | src/users/users.service.ts:186 | the Map keeps the last row set under an id |
| TreeAssembly.SubordinatesIn | src/users/users.service.ts:191-196 | the ids pushed onto node `p` are exactly the visited nodes that report to `p` under a truthy boss id |
| TreeAssembly.CollectRows | src/users/users.service.ts:173-189 | the first loop leaves one node without subordinates per distinct id, in first-insertion order, carrying the last row with that id |
| TreeAssembly.AttachStep | src/users/users.service.ts:191-196 | each pass of the second loop keeps every node equal to its row plus the subordinates pushed by the nodes visited so far |
| TreeAssembly.AttachSubordinates | src/users/users.service.ts:191-196 | after the second loop every node holds exactly the nodes that report to it, in visiting order |
| TreeAssembly.AssembleTree | src/users/users.service.ts:173-198 | both loops together produce exactly the specified answer `Assembled` |
| TreeAssembly.OneNodePerId | src/users/users.service.ts:173-189 | the answer has exactly one node per distinct id of the page |
| TreeAssembly.LastRowWins | src/users/users.service.ts:186 | a node carries the columns of the last row with its id |
| TreeAssembly.Subordinates | src/users/users.service.ts:191-196 | node `y` is among node `x`'s subordinates iff `y`'s boss is `x` and `x`'s id is not 0 |
| TreeAssembly.NoFabricatedChildren | src/users/users.service.ts:191-196 | every listed subordinate is a node of the answer that reports to that node, and each is listed once |
| TreeAssembly.SubordinatesDistinct | src/users/users.service.ts:191-196 | visiting distinct ids pushes each subordinate at most once |
| TreeAssembly.OrphansAttachedNowhere | src/users/users.service.ts:192 | a node whose boss is null, 0 or not in the page is nobody's subordinate |
| TreeAssembly.AtMostOneBoss | src/users/users.service.ts:191-196 | no node is pushed onto two different bosses |
| Users.ShapeError | src/users/users.service.ts:27-51 | each role's shape rule: an admin has no subordinates and no `bossId`; a user has a truthy `bossId` and no subordinates; a boss has subordinates; a body without a role passes. Every violation is a 400 |
| Users.FindOne | src/users/users.service.ts:64 | with an id, the row with that id or nothing; without one, the row with the least id, or nothing for an empty table |
| Users.BossLookup | src/users/users.service.ts:64 | without `bossId`, the first row of the scan; with one that PostgreSQL cannot read as an `integer`, that database error; otherwise the row with the id read, or nothing. A found row exists |
| Users.BossLookupByDecimal | src/users/users.service.ts:64 | the decimal form of a 32-bit id finds that row or nothing; with text after the digits the lookup fails with a database error |
| Users.SubordinateIds | src/users/users.service.ts:71-76 | the ids are `parseInt` of the strings, in order; the query fails iff some id is NaN or outside 32 bits, and the failure is a database error |
| Users.FindIn | src/users/users.service.ts:74-76 | `find` with `In(ids)` returns exactly the listed ids that have a row |
| Users.Admission | src/users/users.service.ts:25-87 | the checks, in the source's order, each outcome stated: a shape error (400); a taken email, or a missing email on a non-empty table (409); a missing password, which bcrypt refuses; the boss lookup's database error; "Boss not found" (400) when the lookup finds no row; a subordinate id the database refuses; a missing name, refused by the NOT NULL column. A body that passes every one of these checks is accepted. On success the boss is exactly the row `bossId` names (or the first row without it), and the subordinates are exactly the found rows |
| Users.Saved | src/users/users.service.ts:87 | the insert fails with a NOT NULL violation iff the body has no name |
| Users.BossIsTheRowNamed | src/users/users.service.ts:64-68 | past the earlier checks, a `bossId` naming no row gives "Boss not found", and an accepted body's boss is the row `bossId` names |
| Users.MissingEmailIsInUse | src/users/users.service.ts:53-59 | a body without an email is never accepted; on a non-empty table it is refused as "Email is already in use" |
| Users.SubordinateCheckNeverFires | src/users/users.service.ts:78-83 | createUser never answers "One or more subordinates not found" |
| Users.UnknownSubordinatesDropped | src/users/users.service.ts:74-85 | listed ids without a row are dropped without error; the plan repoints exactly the found ones |
| Users.DefaultBossIsLeastId | src/users/users.service.ts:64-68 | an accepted body without `bossId`, and any accepted admin, gets the user with the least id as its boss |
| Users.FirstUserCannotBeCreated | src/users/users.service.ts:53-67 | on an empty table every create fails; past the shape checks it fails with "Boss not found", a database error, or bcrypt's refusal of a missing password |
| Users.SavedRecord | src/users/users.service.ts:61-68 | the inserted row has the body's email and name, the hashed password, the stored role and the found boss |
| Users.Inserted | src/users/users.service.ts:85-87 | the table after the save gains exactly the new id, which holds the new row; each listed subordinate's row changes only in its boss, which becomes the new id; every other row is unchanged |
| Users.InsertedIsValid | src/users/users.service.ts:87 | inserting under the next sequence value a row whose boss exists and whose email is new keeps the table valid: ids stay below the next sequence value, boss edges point at rows, and emails stay unique |
| Users.NewUserAdoptsFoundSubordinates | src/users/users.service.ts:85-87 | after the insert, the rows reporting to the new id are exactly the found subordinates |
| Users.Reassignment | src/users/users.service.ts:97-133 | the errors, in order: missing actor (404), missing new boss (404), new boss of role `user` (400), `subordinateId` not a direct subordinate (404). A success edits the named subordinate's edge iff `subordinateId` is truthy, and the actor's own otherwise |
| Users.Persisted | src/users/users.service.ts:130-135 | the save writes only a subordinate's edge: that row is unchanged but for its boss, which becomes the new boss; every other row stays unchanged; an own-edge change leaves the table as it was |
| Users.SelfLoopAccepted | src/users/users.service.ts:119-135 | the edit "make subordinate 2 its own boss" is accepted and persisted |
| Users.AllUsersRepeatsRows | src/users/users.service.ts:207-255 | with an admin and one subordinate, getAllUsers reads the ids 1, 2, 2 and answers two nodes |
| Users.UsersService.constructor | src/users/users.service.ts:17-20 | the service starts over a valid table |
| Users.UsersService.CreateUser | src/users/users.service.ts:22-88 | on a rejected body the table is unchanged and the error is the one `Admission` names; the id sequence advances by one exactly when the body passed every check and the insert refused it (no name), and stays put otherwise; on success exactly the planned row is inserted under the next id, the entity returned carries its fields, and the table stays valid |
| Users.UsersService.Insert | src/users/users.service.ts:61-87 | given a body with email, name and password and a free email: the entity gets the body's fields, the hash, the boss and the found subordinates, and then the id and the stored role; the table becomes `Inserted` and the sequence advances by one |
| Users.UsersService.Save | src/users/users.service.ts:87 | given a row whose boss exists and whose email is new: the row takes the next sequence value, the listed rows are repointed, and the table stays valid |
| Users.UsersService.NextVal | src/users/users.service.ts:87 | the insert's SERIAL default: the row's id is the sequence's current value, the sequence moves on by one whatever becomes of the row, and the table is unchanged |
| Users.UsersService.FindById | src/users/users.service.ts:89-91 | the hydrated row for the id, or the first row when the id is undefined; the password and relations are not loaded |
| Users.UsersService.UpdateBoss | src/users/users.service.ts:93-138 | on any error nothing changes; on success the table becomes `Persisted`. The returned actor has its id, email, name, role and loaded subordinates, no password, and a changed own edge appears only on that object |
| Users.UsersService.Apply | src/users/users.service.ts:97-135 | the actor is loaded with its id, email, name, role and subordinates, and without its password (a column not selected); the subordinate's edit reaches the table, and the own-edge edit reaches the object only |
| Users.UsersService.SetBoss | src/users/users.service.ts:130-135 | one row's boss edge is replaced, and the table stays valid |
| Users.UsersService.GetUser | src/users/users.service.ts:140-199 | the answer is the assembled tree of `UserPage`'s rows, or its error; it fails exactly when the window is negative |
| Users.UsersService.GetAllUsers | src/users/users.service.ts:201-267 | the answer is the assembled tree of `AllUsersPage`'s rows, or its error; it fails exactly when the window is negative |
| RolesGuard.First | src/common/guards/roles.guard.ts:25 | `requiredRoles[0]` is undefined exactly for an empty list |
| RolesGuard.CanActivate | src/common/guards/roles.guard.ts:10-35 | the guard rules: no metadata allows everyone; an admin is always allowed. A boss is allowed iff `boss` is required and the first element is its id or one of its subordinates. A `user` is allowed iff `user` is required and the first element is its id. No user, or no role, gives false. The only exception is a TypeError for a boss whose subordinates were not loaded |
| RolesGuard.AdminOnlyRoute | src/common/guards/roles.guard.ts:15-34 | metadata naming neither `boss` nor `user` admits exactly the administrators, without throwing |
| RolesGuard.RoleNameFirstAdmitsOnlyAdmins | src/common/guards/roles.guard.ts:22-34 | when the metadata starts with a role name, only administrators get through |
| RolesGuard.UnloadedSubordinatesAdmitByIdOnly | src/common/guards/roles.guard.ts:22-28 | a boss without loaded subordinates is admitted only by its own id; the guard throws iff `boss` is required and the first element is not that id |
| AuthGuard.CanActivate | src/common/guards/auth.guard.ts:12-21 | a request with a user is allowed; one without a user is refused with 401 "Not authorized"; the answer is never false |

## Left out

- HTTP routing, dependency injection, Swagger and configuration. The controller's parameter
  plumbing is left out too: it reads `page` and `limit` but calls `getUser(userId)` without
  them (src/users/users.controller.ts:77). Because of that, the model's `GetUser` takes all
  four arguments as the service declares them.
- bcrypt hashing is a parameter `hash: string -> string`; its cost rounds are not modelled.
  bcrypt is not part of this model beyond its refusal of a missing password, modelled as the
  error it throws ("data and salt arguments required").
  JWT handling and the authentication middleware are not part of this model. The guards take
  the request's user as a parameter.
- The registration route that calls `createUser` validates the body first
  (src/auth/auth.controller.ts:24, src/users/dto/create-user.dto.ts:11-22). It refuses a
  missing name, email or password, an email that is not an address and a password shorter
  than 6 characters with 400. That route is not part of this model: the model takes
  `createUser` called on any body, so every field may be missing. Fields of the wrong JSON
  type are not modelled.
- A `role` string other than `admin`, `boss` or `user` is not modelled: the field has no
  validation decorator, so such a string passes the pipe and the shape checks and is refused
  only by the insert into the `users_role_enum` column
  (src/database/migrations/1707730867009-CreateTables.ts:7). The model's role is one of
  the three. `UpdateUserDto` declares only
  `newBossId`, but the service also reads `subordinateId`, so the model's DTO carries both.
  Query-string arguments are taken as integers.
- The property-name clash is unified into one boss edge. The service assigns `newUser.boss`
  and `user.boss` and its SQL reads a `boss` column, while the entity and the migration name
  the relation `bossId`.
- PostgreSQL guarantees no row order without ORDER BY. The model fixes one: a scan of `users`
  yields ascending ids, and each level of a recursive query lists, for each row of the level
  before in that level's order, its direct subordinates in ascending id. So getAllUsers reads
  a two-user table with one boss edge as 1, 2, 2, not in ascending order.
- Users.UsersService.GetUser: a Dafny function must terminate, so the model follows at most
  `(need + 1) * (|users| + 1)` levels of the recursion. `Hierarchy.UserStreamAnswers`
  proves that bound always suffices, cycles included, so the `Unterminated` outcome never
  occurs: on a cyclic store too, the LIMIT stops the query, as in the database.
- RolesGuard.CanActivate: `user.subordinates.includes(requiredRoles[0])` compares entity
  objects with a metadata value, so in JavaScript it can only match by identity. The model
  compares the subordinates' ids with the value.
- NumericInput.ParseInt: leading white space and the precision limits of JavaScript numbers
  are not modelled. NumericInput.PgInt4 does not model surrounding white
  space, or the underscores and radix prefixes that newer servers accept.
- Serialisation of the answers to JSON is left out. Nodes refer to their subordinates by id,
  where the source nests the same objects.
- `async`/`await` and concurrency are left out; each operation is modelled as one atomic
  step. Transactions are left out too, since the source uses none.
