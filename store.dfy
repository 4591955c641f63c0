/** The relational store the user service talks to through bun: five tables
    (users, roles, services, permissions and the users-to-roles join), point
    lookups, filtered scans, inserts and deletes. Any operation may fail; the
    model picks the failure nondeterministically, so every contract proved
    against this store holds whatever the store does. */
module Store {

  datatype Error = StorageError | NotFound | Conflict

  datatype Result<T> = Ok(value: T) | Err(error: Error)

  /** HTTP status codes the handlers report. */
  const StatusCreated: int := 201

  datatype User = User(id: int, name: string, email: string, password: string)
  datatype Role = Role(id: int, name: string)
  datatype Service = Service(id: int, name: string)
  datatype Permission = Permission(id: int, roleId: int, serviceId: int, read: bool, write: bool, manage: bool)
  datatype UserToRole = UserToRole(userId: int, roleId: int)

  /** One write statement issued to the store and carried out. */
  datatype Write =
    | InsertedUserRole(row: UserToRole)
    | DeletedUserRole(row: UserToRole)
    | InsertedRole(role: Role)
    | InsertedPermission(perm: Permission)

  /** No row occurs twice. */
  ghost predicate Distinct<T>(s: seq<T>)
  {
    forall i, j :: 0 <= i < j < |s| ==> s[i] != s[j]
  }

  /** The join rows of user `u`, in table order. */
  function RowsOf(rows: seq<UserToRole>, u: int): (r: seq<UserToRole>)
    ensures forall x :: x in r <==> x in rows && x.userId == u
  {
    if rows == [] then []
    else (if rows[0].userId == u then [rows[0]] else []) + RowsOf(rows[1..], u)
  }

  /** The ids of the roles joined to user `u`. */
  ghost function RoleIdsOf(rows: seq<UserToRole>, u: int): set<int>
  {
    set x | x in rows && x.userId == u :: x.roleId
  }

  /** The join table after deleting, for user `u`, every row whose role is in `ids`. */
  function Without(rows: seq<UserToRole>, u: int, ids: set<int>): seq<UserToRole>
  {
    if rows == [] then []
    else
      (if rows[0].userId == u && rows[0].roleId in ids then [] else [rows[0]])
      + Without(rows[1..], u, ids)
  }

  /** A row survives the delete exactly when it is not one of `u`'s rows for `ids`. */
  lemma {:induction false} WithoutHas(rows: seq<UserToRole>, u: int, ids: set<int>, x: UserToRole)
    ensures x in Without(rows, u, ids) <==> x in rows && !(x.userId == u && x.roleId in ids)
  {
    if rows != [] {
      WithoutHas(rows[1..], u, ids, x);
      assert rows == [rows[0]] + rows[1..];
    }
  }

  /** The first row of `roles` with id `id`. */
  function FindRole(roles: seq<Role>, id: int): (r: Result<Role>)
    ensures r.Ok? ==> r.value in roles && r.value.id == id
    ensures r.Err? ==> r.error == NotFound && forall x :: x in roles ==> x.id != id
  {
    if roles == [] then Err(NotFound)
    else if roles[0].id == id then Ok(roles[0])
    else FindRole(roles[1..], id)
  }

  /** The first row of `services` with id `id`. */
  function FindService(services: seq<Service>, id: int): (r: Result<Service>)
    ensures r.Ok? ==> r.value in services && r.value.id == id
    ensures r.Err? ==> r.error == NotFound && forall x :: x in services ==> x.id != id
  {
    if services == [] then Err(NotFound)
    else if services[0].id == id then Ok(services[0])
    else FindService(services[1..], id)
  }

  /** The first row of `users` with id `id`. */
  function FindUser(users: seq<User>, id: int): (r: Result<User>)
    ensures r.Ok? ==> r.value in users && r.value.id == id
    ensures r.Err? ==> r.error == NotFound && forall x :: x in users ==> x.id != id
  {
    if users == [] then Err(NotFound)
    else if users[0].id == id then Ok(users[0])
    else FindUser(users[1..], id)
  }

  /** The has-many relation role -> permissions: the grants of role `roleId`,
      in table order. */
  function GrantsOf(perms: seq<Permission>, roleId: int): (r: seq<Permission>)
    ensures forall p :: p in r <==> p in perms && p.roleId == roleId
  {
    if perms == [] then []
    else (if perms[0].roleId == roleId then [perms[0]] else []) + GrantsOf(perms[1..], roleId)
  }

  /** The has-many relation service -> permissions. */
  function GrantsOn(perms: seq<Permission>, serviceId: int): (r: seq<Permission>)
    ensures forall p :: p in r <==> p in perms && p.serviceId == serviceId
  {
    if perms == [] then []
    else (if perms[0].serviceId == serviceId then [perms[0]] else []) + GrantsOn(perms[1..], serviceId)
  }

  /** The many-to-many relation user -> roles through the join table: one role
      per join row of `u`, in join-row order; a row whose role is missing from
      the roles table is dropped, as an inner join drops it. */
  function RolesOf(rows: seq<UserToRole>, roles: seq<Role>, u: int): (r: seq<Role>)
    ensures forall x :: x in r ==> x in roles && UserToRole(u, x.id) in rows
  {
    if rows == [] then []
    else
      var head :=
        if rows[0].userId == u then
          match FindRole(roles, rows[0].roleId)
          case Ok(role) => [role]
          case Err(_) => []
        else [];
      head + RolesOf(rows[1..], roles, u)
  }

  /** The converse: a join row of `u` whose role is stored brings that role
      into the relation. */
  lemma {:induction false} RolesOfHas(rows: seq<UserToRole>, roles: seq<Role>, u: int, roleId: int)
    requires UserToRole(u, roleId) in rows && FindRole(roles, roleId).Ok?
    ensures FindRole(roles, roleId).value in RolesOf(rows, roles, u)
  {
    if rows[0] != UserToRole(u, roleId) {
      assert UserToRole(u, roleId) in rows[1..];
      RolesOfHas(rows[1..], roles, u, roleId);
    }
  }

  class Db {
    var users: seq<User>
    var roles: seq<Role>
    var services: seq<Service>
    var permissions: seq<Permission>
    var userRoles: seq<UserToRole>
    /** Serial counters that give inserted rows their ids. */
    var nextRoleId: int
    var nextPermissionId: int
    /** Every write carried out so far, oldest first. */
    ghost var log: seq<Write>

    /** The (user_id, role_id) primary key of the join table. */
    ghost predicate Valid()
      reads this
    {
      Distinct(userRoles)
    }

    constructor Empty()
      ensures Valid() && log == []
      ensures users == [] && roles == [] && services == [] && permissions == [] && userRoles == []
    {
      users, roles, services, permissions, userRoles := [], [], [], [], [];
      nextRoleId, nextPermissionId := 1, 1;
      log := [];
    }

    /** Whether the store fails this call: any answer is possible. */
    method Fails() returns (failed: bool)
    {
      failed :| true;
    }

    /** SELECT * FROM user_to_roles WHERE user_id = u */
    method SelectUserRoles(u: int) returns (r: Result<seq<UserToRole>>)
      ensures r.Ok? ==> r.value == RowsOf(userRoles, u)
      ensures r.Err? ==> r.error == StorageError
    {
      var failed := Fails();
      if failed { return Err(StorageError); }
      return Ok(RowsOf(userRoles, u));
    }

    /** SELECT * FROM users, with relation Roles */
    method SelectUsersWithRoles() returns (r: Result<seq<(User, seq<Role>)>>)
      ensures r.Err? ==> r.error == StorageError
      ensures r.Ok? ==> |r.value| == |users|
      ensures r.Ok? ==> forall i :: 0 <= i < |users| ==>
        r.value[i] == (users[i], RolesOf(userRoles, roles, users[i].id))
    {
      var failed := Fails();
      if failed { return Err(StorageError); }
      return Ok(seq(|users|, i requires 0 <= i < |users| reads this =>
        (users[i], RolesOf(userRoles, roles, users[i].id))));
    }

    /** SELECT * FROM users WHERE id = u, with relation Roles */
    method SelectUserWithRoles(u: int) returns (r: Result<seq<Role>>)
      ensures FindUser(users, u).Err? ==> r.Err?
      ensures r.Ok? ==> FindUser(users, u).Ok? && r.value == RolesOf(userRoles, roles, u)
      ensures r.Err? ==> r.error == StorageError || (r.error == NotFound && FindUser(users, u).Err?)
    {
      var failed := Fails();
      if failed { return Err(StorageError); }
      var found := FindUser(users, u);
      if found.Err? { return Err(found.error); }
      return Ok(RolesOf(userRoles, roles, u));
    }

    /** SELECT * FROM roles */
    method SelectRoles() returns (r: Result<seq<Role>>)
      ensures r.Ok? ==> r.value == roles
      ensures r.Err? ==> r.error == StorageError
    {
      var failed := Fails();
      if failed { return Err(StorageError); }
      return Ok(roles);
    }

    /** SELECT * FROM roles WHERE id = id */
    method SelectRole(id: int) returns (r: Result<Role>)
      ensures FindRole(roles, id).Err? ==> r.Err?
      ensures r.Ok? ==> r == FindRole(roles, id)
      ensures r.Err? ==> r.error == StorageError || (r.error == NotFound && FindRole(roles, id).Err?)
    {
      var failed := Fails();
      if failed { return Err(StorageError); }
      return FindRole(roles, id);
    }

    /** SELECT * FROM roles WHERE id = id, with relation Permissions */
    method SelectRoleWithPermissions(id: int) returns (r: Result<seq<Permission>>)
      ensures FindRole(roles, id).Err? ==> r.Err?
      ensures r.Ok? ==> FindRole(roles, id).Ok? && r.value == GrantsOf(permissions, id)
      ensures r.Err? ==> r.error == StorageError || (r.error == NotFound && FindRole(roles, id).Err?)
    {
      var failed := Fails();
      if failed { return Err(StorageError); }
      var found := FindRole(roles, id);
      if found.Err? { return Err(found.error); }
      return Ok(GrantsOf(permissions, id));
    }

    /** SELECT * FROM services */
    method SelectServices() returns (r: Result<seq<Service>>)
      ensures r.Ok? ==> r.value == services
      ensures r.Err? ==> r.error == StorageError
    {
      var failed := Fails();
      if failed { return Err(StorageError); }
      return Ok(services);
    }

    /** SELECT * FROM services WHERE id = id */
    method SelectService(id: int) returns (r: Result<Service>)
      ensures FindService(services, id).Err? ==> r.Err?
      ensures r.Ok? ==> r == FindService(services, id)
      ensures r.Err? ==> r.error == StorageError || (r.error == NotFound && FindService(services, id).Err?)
    {
      var failed := Fails();
      if failed { return Err(StorageError); }
      return FindService(services, id);
    }

    /** SELECT * FROM services WHERE id = id, with relation Permissions */
    method SelectServiceWithPermissions(id: int) returns (r: Result<(Service, seq<Permission>)>)
      ensures FindService(services, id).Err? ==> r.Err?
      ensures r.Ok? ==> FindService(services, id) == Ok(r.value.0)
      ensures r.Ok? ==> r.value.1 == GrantsOn(permissions, id)
      ensures r.Err? ==> r.error == StorageError || (r.error == NotFound && FindService(services, id).Err?)
    {
      var failed := Fails();
      if failed { return Err(StorageError); }
      var found := FindService(services, id);
      if found.Err? { return Err(found.error); }
      return Ok((found.value, GrantsOn(permissions, id)));
    }

    /** INSERT INTO user_to_roles; the primary key refuses a pair already there. */
    method InsertUserRole(row: UserToRole) returns (r: Result<()>)
      requires Valid()
      modifies this`userRoles, this`log
      ensures Valid()
      ensures row in old(userRoles) ==> r.Err?
      ensures r.Ok? ==> userRoles == old(userRoles) + [row] && log == old(log) + [InsertedUserRole(row)]
      ensures r.Err? ==> userRoles == old(userRoles) && log == old(log)
      ensures r.Err? ==> r.error == StorageError || (r.error == Conflict && row in old(userRoles))
    {
      var failed := Fails();
      if failed { return Err(StorageError); }
      if row in userRoles { return Err(Conflict); }
      userRoles := userRoles + [row];
      log := log + [InsertedUserRole(row)];
      return Ok(());
    }

    /** DELETE FROM user_to_roles WHERE user_id = u AND role_id = roleId */
    method DeleteUserRole(u: int, roleId: int) returns (r: Result<()>)
      requires Valid()
      modifies this`userRoles, this`log
      ensures Valid()
      ensures r.Ok? ==> userRoles == Without(old(userRoles), u, {roleId})
      ensures r.Ok? ==> log == old(log) + [DeletedUserRole(UserToRole(u, roleId))]
      ensures r.Err? ==> userRoles == old(userRoles) && log == old(log)
      ensures r.Err? ==> r.error == StorageError
    {
      var failed := Fails();
      if failed { return Err(StorageError); }
      WithoutKeepsDistinct(userRoles, u, {roleId});
      userRoles := Without(userRoles, u, {roleId});
      log := log + [DeletedUserRole(UserToRole(u, roleId))];
      return Ok(());
    }

    /** INSERT INTO roles; the id comes from the table's serial. */
    method InsertRole(name: string) returns (r: Result<Role>)
      modifies this`roles, this`nextRoleId, this`log
      ensures r.Ok? ==> r.value == Role(old(nextRoleId), name)
      ensures r.Ok? ==> roles == old(roles) + [r.value] && log == old(log) + [InsertedRole(r.value)]
      ensures r.Ok? ==> nextRoleId == old(nextRoleId) + 1
      ensures r.Err? ==> roles == old(roles) && log == old(log) && nextRoleId == old(nextRoleId)
      ensures r.Err? ==> r.error == StorageError
    {
      var failed := Fails();
      if failed { return Err(StorageError); }
      var role := Role(nextRoleId, name);
      roles := roles + [role];
      nextRoleId := nextRoleId + 1;
      log := log + [InsertedRole(role)];
      return Ok(role);
    }

    /** INSERT INTO permissions; the id comes from the table's serial. */
    method InsertPermission(roleId: int, serviceId: int, read: bool, write: bool, manage: bool)
      returns (r: Result<Permission>)
      modifies this`permissions, this`nextPermissionId, this`log
      ensures r.Ok? ==> r.value == Permission(old(nextPermissionId), roleId, serviceId, read, write, manage)
      ensures r.Ok? ==> permissions == old(permissions) + [r.value]
      ensures r.Ok? ==> log == old(log) + [InsertedPermission(r.value)]
      ensures r.Ok? ==> nextPermissionId == old(nextPermissionId) + 1
      ensures r.Err? ==> permissions == old(permissions) && log == old(log)
      ensures r.Err? ==> nextPermissionId == old(nextPermissionId)
      ensures r.Err? ==> r.error == StorageError
    {
      var failed := Fails();
      if failed { return Err(StorageError); }
      var perm := Permission(nextPermissionId, roleId, serviceId, read, write, manage);
      permissions := permissions + [perm];
      nextPermissionId := nextPermissionId + 1;
      log := log + [InsertedPermission(perm)];
      return Ok(perm);
    }
  }

  /** Deleting rows keeps the primary key intact. */
  lemma {:induction false} WithoutKeepsDistinct(rows: seq<UserToRole>, u: int, ids: set<int>)
    requires Distinct(rows)
    ensures Distinct(Without(rows, u, ids))
  {
    if rows != [] {
      assert Distinct(rows[1..]) by {
        forall i, j | 0 <= i < j < |rows[1..]| ensures rows[1..][i] != rows[1..][j] {
          assert rows[1..][i] == rows[i + 1] && rows[1..][j] == rows[j + 1];
        }
      }
      WithoutKeepsDistinct(rows[1..], u, ids);
      assert rows[0] !in rows[1..] by {
        forall k | 0 <= k < |rows[1..]| ensures rows[1..][k] != rows[0] {
          assert rows[1..][k] == rows[k + 1];
        }
      }
      WithoutHas(rows[1..], u, ids, rows[0]);
    }
  }

  /** Which roles a user holds after a delete: the deleted ids are gone. */
  lemma {:induction false} RoleIdsWithout(rows: seq<UserToRole>, u: int, ids: set<int>)
    ensures RoleIdsOf(Without(rows, u, ids), u) == RoleIdsOf(rows, u) - ids
  {
    var w := Without(rows, u, ids);
    forall x | x in RoleIdsOf(w, u) ensures x in RoleIdsOf(rows, u) - ids {
      var row :| row in w && row.userId == u && row.roleId == x;
      WithoutHas(rows, u, ids, row);
    }
    forall x | x in RoleIdsOf(rows, u) - ids ensures x in RoleIdsOf(w, u) {
      var row :| row in rows && row.userId == u && row.roleId == x;
      WithoutHas(rows, u, ids, row);
    }
  }

  /** A delete for user `u` leaves every other user's rows as they were, in order. */
  lemma {:induction false} WithoutKeepsOthers(rows: seq<UserToRole>, u: int, ids: set<int>, v: int)
    requires v != u
    ensures RowsOf(Without(rows, u, ids), v) == RowsOf(rows, v)
  {
    if rows != [] {
      WithoutKeepsOthers(rows[1..], u, ids, v);
      var head := if rows[0].userId == u && rows[0].roleId in ids then [] else [rows[0]];
      RowsOfAppend(head, Without(rows[1..], u, ids), v);
    }
  }

  /** Two deletes for the same user make one delete of both id sets. */
  lemma {:induction false} WithoutWithout(rows: seq<UserToRole>, u: int, a: set<int>, b: set<int>)
    ensures Without(Without(rows, u, a), u, b) == Without(rows, u, a + b)
  {
    if rows != [] {
      WithoutWithout(rows[1..], u, a, b);
      var head := if rows[0].userId == u && rows[0].roleId in a then [] else [rows[0]];
      WithoutAppend(head, Without(rows[1..], u, a), u, b);
    }
  }

  lemma {:induction false} WithoutAppend(s: seq<UserToRole>, t: seq<UserToRole>, u: int, ids: set<int>)
    ensures Without(s + t, u, ids) == Without(s, u, ids) + Without(t, u, ids)
  {
    if s != [] {
      assert (s + t)[1..] == s[1..] + t;
      WithoutAppend(s[1..], t, u, ids);
    } else {
      assert s + t == t;
    }
  }

  lemma {:induction false} RowsOfAppend(s: seq<UserToRole>, t: seq<UserToRole>, v: int)
    ensures RowsOf(s + t, v) == RowsOf(s, v) + RowsOf(t, v)
  {
    if s != [] {
      assert (s + t)[1..] == s[1..] + t;
      RowsOfAppend(s[1..], t, v);
    } else {
      assert s + t == t;
    }
  }
}
