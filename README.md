# Role-based access control of the user service

This project models the role-based access control core of the user service in Dafny. The core is three gRPC handlers over a relational store reached through the bun ORM.

- **Role reconciliation** (`userService.Assign`). The service reads the join rows that give a user their roles. It inserts a row for each requested role the user does not hold, in request order. It then deletes each held role the request does not name, in map order. The first failing write ends the call, and the writes already made stay. `userService.GetAll` lists users with their roles.
- **Permission matrix** (`permService.GetUserPermissions`). The service gathers every grant of every role of the user. For each grant it resolves the service and writes the keys `<lower-cased service name>.read`, `.write` and `.manage` into a map. The first grant writes its keys outright. Every later grant writes a key only where it does not already read true, so each key is the or of the flags that reach it.
- **Catalogue** (`GetServices`, `CreateServicePermissions`, `GetServicePermissions`, `roleService.GetAll`, `roleService.Create`). These are plain inserts, and projections and joins that keep the store's order.

Modules:

- `Store` (store.dfy): the tables as entity datatypes, and the `Db` class with its point lookups, filtered scans, inserts and deletes. Any `Db` operation may fail, chosen nondeterministically, so every contract holds whatever the store does. A ghost log records each write that was carried out, which lets contracts state the order and number of writes.
- `Proto` (proto.dfy): the response records.
- `Users` (users.dfy): `UserService`, with `Assign` split into its insert loop and its delete loop. It also holds the lemmas about what a reconciliation achieves.
- `Permissions` (permissions.dfy):
  - `PermService`;
  - the matrix as an or-fold, `Matrix`, over the visited grants, `Resolve`;
  - the lemmas relating the loop, the fold and the meaning of a key.
- `Roles` (roles.dfy): `RoleService`.

The code enforces no uniqueness of its own:

- `CreateServicePermissions` is a bare insert (service.go:58). A second grant for the same role and service is stored as a second row. It is not an upsert.
- `roleService.Create` does not look for an existing role of the same name (role.go:52). The table schema is not part of this model. The model assumes no unique constraint on role names, so two roles of one name are stored, as `Roles.SameNameTwice` shows. The model also assumes no unique constraint on (role_id, service_id) for grants.
- The model assumes a (user_id, role_id) primary key on the join table, so inserting a pair the table already holds fails. This is an assumption, not something the code shows. `currentRoles` is never updated inside the insert loop (user.go:137-147). A request that repeats an id the user does not hold therefore inserts it twice. The second insert fails, and `Assign` reports that error.

## Model

| member | source | states |
|---|---|---|
| Store.RowsOf | app/user/pkg/handlers/user.go:121 | the rows the `user_id = ?` scan returns are exactly the join rows of that user |
| Store.FindUser | app/user/pkg/handlers/service.go:110-117 | a lookup by id finds a user with that id, or fails `NotFound` when no stored user has it |
| Store.FindRole | app/user/pkg/handlers/service.go:80-86 | a lookup by id finds a role with that id, or fails `NotFound` when no stored role has it |
| Store.FindService | app/user/pkg/handlers/service.go:134-140 | a lookup by id finds a service with that id, or fails `NotFound` when no stored service has it |
| Store.GrantsOf | app/user/pkg/handlers/service.go:121-129 | a role's `Permissions` relation holds exactly the stored grants with that role id |
| Store.GrantsOn | app/user/pkg/handlers/service.go:69-76 | a service's `Permissions` relation holds exactly the stored grants on that service |
| Store.RolesOf | app/user/pkg/handlers/user.go:48 | every role in a user's `Roles` relation is a stored role joined to that user by a join row |
| Store.RolesOfHas | app/user/pkg/handlers/user.go:48 | conversely, every join row of the user whose role is stored brings that role into the relation |
| Store.Without | app/user/pkg/handlers/user.go:153-156 | the join table after a delete filtered on `user_id` and `role_id`, per id of a set; what it keeps is stated by Store.WithoutHas |
| Store.WithoutHas | app/user/pkg/handlers/user.go:153-156 | a delete filtered on user and role removes exactly that user's rows for those roles and keeps every other row |
| Store.WithoutKeepsOthers | app/user/pkg/handlers/user.go:153-156 | deleting one user's rows leaves every other user's rows, in order |
| Store.WithoutKeepsDistinct | app/user/pkg/handlers/user.go:153-156 | deleting keeps the join table free of repeated rows |
| Store.RoleIdsWithout | app/user/pkg/handlers/user.go:150-162 | after deleting a set of role ids, the user holds the previous roles minus that set |
| Store.WithoutWithout | app/user/pkg/handlers/user.go:151-162 | deleting one id after another is the same as deleting their union at once |
| Store.WithoutAppend | app/user/pkg/handlers/user.go:153-156 | the delete acts row by row, so it splits over the two halves of a table |
| Store.RowsOfAppend | app/user/pkg/handlers/user.go:121 | a user's rows in two halves of a table are that user's rows of each half, in order |
| Store.Db.SelectUserRoles | app/user/pkg/handlers/user.go:121-123 | on success the scan returns the user's join rows; any failure is a storage error |
| Store.Db.SelectUsersWithRoles | app/user/pkg/handlers/user.go:48-51 | on success, one entry per stored user in order, each with that user's `Roles` relation; any failure is a storage error |
| Store.Db.SelectUserWithRoles | app/user/pkg/handlers/service.go:110-117 | a missing user is an error; on success the user exists and its roles are its relation; an error other than a storage error means the user is missing (`NotFound`) |
| Store.Db.SelectRoles | app/user/pkg/handlers/role.go:30-33 | on success the scan returns the roles table; any failure is a storage error |
| Store.Db.SelectRole | app/user/pkg/handlers/service.go:80-86 | a missing role is an error; on success the answer is the role with that id; an error other than a storage error means the role is missing (`NotFound`) |
| Store.Db.SelectRoleWithPermissions | app/user/pkg/handlers/service.go:121-127 | a missing role is an error; on success the answer is that role's grants; an error other than a storage error means the role is missing (`NotFound`) |
| Store.Db.SelectServices | app/user/pkg/handlers/service.go:31-34 | on success the scan returns the services table; any failure is a storage error |
| Store.Db.SelectService | app/user/pkg/handlers/service.go:134-140 | a missing service is an error; on success the answer is the service with that id; an error other than a storage error means the service is missing (`NotFound`) |
| Store.Db.SelectServiceWithPermissions | app/user/pkg/handlers/service.go:69-76 | a missing service is an error; on success the answer is the service and its grants; an error other than a storage error means the service is missing (`NotFound`) |
| Store.Db.InsertUserRole | app/user/pkg/handlers/user.go:139-146 | an insert of a pair already present fails; success appends the row and logs it; failure changes nothing; an error is a storage error or a `Conflict` on a pair already present; rows stay distinct |
| Store.Db.DeleteUserRole | app/user/pkg/handlers/user.go:153-160 | success removes exactly the user's row for that role and logs the delete; failure changes nothing and is a storage error |
| Store.Db.InsertRole | app/user/pkg/handlers/role.go:49-56 | success appends a role with the requested name and the next serial id; failure changes nothing and is a storage error |
| Store.Db.InsertPermission | app/user/pkg/handlers/service.go:50-61 | success appends one grant with the given role, service and flags and the next serial id; failure changes nothing and is a storage error |
| Users.UserService.GetAll | app/user/pkg/handlers/user.go:45-77 | one entry per stored user in order, with id, name and e-mail copied and that user's roles in relation order with id and name copied; an error is a storage error |
| Users.UserService.Assign | app/user/pkg/handlers/user.go:118-167 | on success (status 201) the user holds exactly the requested ids, the writes are the missing inserts in request order followed by one delete per unrequested held role, and a repeated new id cannot have occurred; on failure the writes made stay, in the log and in the table, which is the old one with the inserts made appended and the deletes made applied; those writes are a prefix of that plan, and the held set lies between held∩requested and held∪requested; an error other than a storage error means the request repeated an id the user did not hold; a request equal to the held set writes nothing; other users' rows are untouched |
| Users.NewIds | app/user/pkg/handlers/user.go:137-147 | the insert plan: each requested id not among the held ids, in request order and as often as the request repeats it, because `currentRoles` is not updated; Users.NewIdsElems states its ids |
| Users.UserService.AddRequestedRoles | app/user/pkg/handlers/user.go:136-148 | on success the table and the log grow by one insert per requested id not held, in request order; a failure stops partway, keeping a prefix of those inserts in the table and the log, and is possible only when some requested id is not held; an error other than a storage error means the plan repeats an id |
| Users.UserService.DeleteUnrequestedRoles | app/user/pkg/handlers/user.go:150-162 | in whatever order the held ids are visited, only unrequested held roles of the user are deleted, each once, and the table is the old one without them; on success all of them are; when every held id is requested the loop cannot fail; an error is a storage error |
| Users.RepeatNotDistinct | app/user/pkg/handlers/user.go:137-147 | an insert the primary key refuses is a requested id not held that the plan already holds, so the plan repeats it |
| Users.InsertPhaseStops | app/user/pkg/handlers/user.go:144-146 | an insert failure leaves a prefix of the planned inserts and no delete; the table is the old one with that prefix appended, which is a partial reconciliation that touches no other user |
| Users.DeletePhaseStops | app/user/pkg/handlers/user.go:158-160 | a delete failure leaves every planned insert followed by some unrequested deletes, in the log and in the table, which is the old one with all planned rows appended and those roles deleted; the writes are not undone |
| Users.ReconcileComplete | app/user/pkg/handlers/user.go:136-166 | both loops finishing gives the requested role set, the complete write trace, and no write at all when nothing differs |
| Users.ReconcileReachesRequest | app/user/pkg/handlers/user.go:118-162 | whatever the user held, inserting the missing ids and deleting the unrequested ones leaves exactly the requested set |
| Users.MinimalWrites | app/user/pkg/handlers/user.go:137-162 | a completed reconciliation makes one write per id in the symmetric difference of held and requested |
| Users.NothingToDo | app/user/pkg/handlers/user.go:137-162 | assigning the set the user already holds writes nothing, so a second identical Assign is a no-op |
| Users.EmptyRequestClears | app/user/pkg/handlers/user.go:150-162 | an empty request leaves the user with no join rows |
| Users.ReconcileExample | app/user/pkg/handlers/user.go:136-162 | a user holding {2,3} who asks for [1,2] gets exactly: insert 1, then delete 3 |
| Permissions.Lower | app/user/pkg/handlers/service.go:142 | the service name lower-cased (ASCII letters only), character by character; stated by Permissions.LowerChars |
| Permissions.LowerChars | app/user/pkg/handlers/service.go:142 | lower-casing keeps the length and maps each character on its own |
| Permissions.KeyInjective | app/user/pkg/handlers/service.go:143-145 | two keys are equal only for the same service name and the same action |
| Permissions.MatrixLookup | app/user/pkg/handlers/service.go:132-162 | a key `s.a` reads true exactly when some visited grant on a service named `s` sets flag `a` |
| Permissions.MatrixKeys | app/user/pkg/handlers/service.go:142-160 | a key is present exactly when it is one of the three keys of some visited grant's service |
| Permissions.MatrixKeepsGrants | app/user/pkg/handlers/service.go:148-156 | once a key reads true, no later grant sets it back to false |
| Permissions.MatrixSameCells | app/user/pkg/handlers/service.go:132-162 | the matrix depends only on which grants are visited, not on their order or repetition |
| Permissions.MatrixOrderFree | app/user/pkg/handlers/service.go:132-162 | any permutation of the visited grants yields the same matrix |
| Permissions.Merge | app/user/pkg/handlers/service.go:147-156 | after one grant, each of its three keys is present and reads its previous value or-ed with the grant's flag |
| Permissions.Matrix | app/user/pkg/handlers/service.go:132-162 | the map the merge loop builds, folding the visited grants in order from the empty map; its meaning is stated by Permissions.MatrixLookup and Permissions.MatrixKeys |
| Permissions.FirstMerge | app/user/pkg/handlers/service.go:147-161 | on the empty map the guarded writes of the `index > 0` branch equal the unconditional writes of the first grant |
| Permissions.CaseShared | app/user/pkg/handlers/service.go:142-145 | services whose names differ only in letter case share all three keys |
| Permissions.Resolve | app/user/pkg/handlers/service.go:133-142 | the per-grant service lookups: each grant paired with its service's lower-cased name, or the first lookup's `NotFound`; stated by Permissions.ResolveMeaning |
| Permissions.ResolveMeaning | app/user/pkg/handlers/service.go:133-142 | resolving the grants succeeds exactly when every grant's service exists, and yields one cell per grant carrying that service's lower-cased name |
| Permissions.ResolveHas | app/user/pkg/handlers/service.go:133-142 | a cell is visited exactly when its grant is gathered and its name is the grant's service name lower-cased |
| Permissions.ResolveSnoc | app/user/pkg/handlers/service.go:133-142 | one more grant whose service exists resolves to one more cell |
| Permissions.RoleGrants | app/user/pkg/handlers/service.go:119-130 | the role loop: the grants of each role in turn, appended; stated by Permissions.RoleGrantsHas |
| Permissions.RoleGrantsHas | app/user/pkg/handlers/service.go:119-130 | a grant is gathered exactly when it is stored and belongs to one of the user's roles |
| Permissions.RoleOrderFree | app/user/pkg/handlers/service.go:119-130 | visiting the same roles in any order gives the same outcome and the same matrix |
| Permissions.NoGrantsNoKeys | app/user/pkg/handlers/service.go:119-166 | when no role of the list owns a stored grant (in particular for no roles), nothing is gathered, resolving succeeds, and the matrix is empty |
| Permissions.GrantsOfAppend | app/user/pkg/handlers/service.go:49-66 | an inserted grant joins the grants of its role, after the earlier ones |
| Permissions.ExampleGrants | app/user/pkg/handlers/service.go:121-129 | in the worked example, role 1 owns the first grant and role 2 the other two |
| Permissions.MatrixExample | app/user/pkg/handlers/service.go:109-167 | roles granting billing read, billing write and storage manage give billing.read, billing.write, storage.manage true and billing.manage, storage.read, storage.write false |
| Permissions.PermService.GetServices | app/user/pkg/handlers/service.go:30-47 | one entry per stored service in order, with id and name copied; an error is a storage error |
| Permissions.PermService.CreateServicePermissions | app/user/pkg/handlers/service.go:49-66 | success (status 201) appends exactly one grant with the request's role, service and flags and the next serial id, and logs that insert; failure changes nothing and is a storage error |
| Permissions.PermService.GetServicePermissions | app/user/pkg/handlers/service.go:68-107 | a missing service is an error; on success one entry per grant of the service in order, with the service's id and name, the role's id and name, and the three flags copied; an error other than a storage error means the service or a grant's role is missing |
| Permissions.PermService.GetUserPermissions | app/user/pkg/handlers/service.go:109-167 | a missing user or a grant's missing service is an error; on success the answer is the or-fold matrix of the grants of the user's roles; an error other than a storage error means the user or a grant's service is missing, so with Permissions.NoGrantsNoKeys a stored user without grants gets the empty matrix unless the store fails |
| Permissions.StoredRolesFound | app/user/pkg/handlers/service.go:119-127 | roles taken from the roles table are found there by their ids, so the role loop cannot miss one |
| Permissions.PermService.GatherGrants | app/user/pkg/handlers/service.go:119-130 | a success means every role's lookup found the role, and the gathered grants are each role's grants in turn; an error other than a storage error means some role is missing |
| Permissions.PermService.MergeGrants | app/user/pkg/handlers/service.go:132-162 | the imperative merge loop fails whenever a grant's service is missing, and when it succeeds every service was found and its map is the or-fold matrix; an error other than a storage error means some grant's service is missing |
| Roles.FindRoleAppend | app/user/pkg/handlers/role.go:52 | after one more role, a lookup by id gives the old answer if there was one, else the new role if the id matches |
| Roles.CreatedRoleFound | app/user/pkg/handlers/role.go:48-52 | a created role is found by its new id, every earlier role is still found, and ids stay below the serial counter |
| Roles.SameNameTwice | app/user/pkg/handlers/role.go:48-52 | creating the same name twice stores two roles, told apart by their ids |
| Roles.RoleService.GetAll | app/user/pkg/handlers/role.go:27-46 | one entry per stored role in order, with id and name copied; an error is a storage error |
| Roles.RoleService.Create | app/user/pkg/handlers/role.go:48-61 | success (status 201) appends exactly one role with the requested name and the next id; failure changes nothing and is a storage error; ids stay below the counter |

## Left out

- Transport: gRPC and HTTP handlers, JSON decoding, route registration and `context.Context` cancellation. The handlers' requests become method parameters and their responses become results.
- The SQL, the bun ORM and the database are replaced by the in-memory `Db` class. Any operation of it may fail. The error kinds the model tells apart are `NotFound` for a missing row and `Conflict` for an insert into the join table of a pair it already holds. Every other failure is `StorageError`.
- `userService.Create`, `Update`, `Delete` and `GetOne`, authentication, the Docker service and bootstrap are not part of this model. Each is a bare insert, a select, a one-line delegation, foreign crypto or process wiring.
- Concurrency, transactions and atomicity: the model is sequential, and a failed `Assign` keeps the writes it made, as the code does.
- Permissions.Lower: `strings.ToLower` does full Unicode case mapping; the model lower-cases ASCII letters only.
- Users.UserService.DeleteUnrequestedRoles: Go's map iteration order is modelled as an arbitrary choice of the next pending id, so its contract holds for every order but does not name one.
- Store.Db.InsertUserRole: the model assumes a (user_id, role_id) primary key on the join table, which the code does not show. With that key, a request that repeats a role id the user does not hold fails on the second insert. So a successful `Assign` never repeats a new id, and `Users.MinimalWrites` applies to it. Without the key, the code would insert such a row twice and still report 201.
- Store.RolesOf: bun's order for the many-to-many `Roles` relation is taken to be join-row order, and a join row whose role is missing is dropped as an inner join drops it.
- Store.GrantsOf: none of the queries has an ORDER BY, so the store's order is not fixed. The model takes table order for the has-many `Permissions` relations (`Store.GrantsOf`, `Store.GrantsOn`) and for the plain scans of users, roles and services (`Store.Db.SelectUsersWithRoles`, `Store.Db.SelectRoles`, `Store.Db.SelectServices`). The "in order" promises of the listing operations are relative to that choice.
- Integer widths: ids are `int64` in the source and unbounded integers here. No arithmetic beyond the serial counters is done on them.
