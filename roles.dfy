/** The role catalogue (app/user/pkg/handlers/role.go): listing the roles
    and creating one. Creating a role inserts it as it is: there is no check
    for a role of the same name. */
module Roles {
  import opened Store
  import opened Proto

  /** Every stored role has an id below the serial counter. */
  ghost predicate IdsBelow(roles: seq<Role>, next: int)
  {
    forall r :: r in roles ==> r.id < next
  }

  /** Looking an id up after one more row: the old answer when there was one,
      otherwise the new row if it has that id. */
  lemma {:induction false} FindRoleAppend(roles: seq<Role>, x: Role, id: int)
    ensures FindRole(roles + [x], id) ==
      if FindRole(roles, id).Ok? then FindRole(roles, id)
      else if x.id == id then Ok(x)
      else Err(NotFound)
    decreases |roles|
  {
    if roles == [] {
      assert [] + [x] == [x];
    } else {
      assert (roles + [x])[1..] == roles[1..] + [x];
      FindRoleAppend(roles[1..], x, id);
    }
  }

  /** A created role takes the next serial id, so it is found by that id,
      every role found before is still found, and the ids stay below the
      counter. */
  lemma CreatedRoleFound(roles: seq<Role>, next: int, name: string, id: int)
    requires IdsBelow(roles, next)
    ensures FindRole(roles + [Role(next, name)], next) == Ok(Role(next, name))
    ensures FindRole(roles, id).Ok? ==> FindRole(roles + [Role(next, name)], id) == FindRole(roles, id)
    ensures IdsBelow(roles + [Role(next, name)], next + 1)
  {
    FindRoleAppend(roles, Role(next, name), next);
    FindRoleAppend(roles, Role(next, name), id);
  }

  /** Names are not unique: creating the same name twice stores two roles,
      told apart by their ids. */
  lemma SameNameTwice(roles: seq<Role>, next: int, name: string)
    requires IdsBelow(roles, next)
    ensures var after := roles + [Role(next, name)] + [Role(next + 1, name)];
      && FindRole(after, next) == Ok(Role(next, name))
      && FindRole(after, next + 1) == Ok(Role(next + 1, name))
  {
    CreatedRoleFound(roles, next, name, next);
    CreatedRoleFound(roles + [Role(next, name)], next + 1, name, next);
  }

  class RoleService {
    const db: Db

    constructor (db: Db)
      ensures this.db == db
    {
      this.db := db;
    }

    /** GetAll: one entry per stored role, in store order. */
    method GetAll() returns (r: Result<seq<RoleInfo>>)
      ensures r.Err? ==> r.error == StorageError
      ensures r.Ok? ==> |r.value| == |db.roles|
      ensures r.Ok? ==> forall i :: 0 <= i < |db.roles| ==>
        r.value[i].id == db.roles[i].id && r.value[i].name == db.roles[i].name
    {
      var roles := db.SelectRoles();
      if roles.Err? {
        return Err(roles.error);
      }
      var resSlice: seq<RoleInfo> := [];
      for i := 0 to |roles.value|
        invariant |resSlice| == i
        invariant forall j :: 0 <= j < i ==> resSlice[j] == RoleInfo(db.roles[j].id, db.roles[j].name)
      {
        var role := roles.value[i];
        resSlice := resSlice + [RoleInfo(role.id, role.name)];
      }
      return Ok(resSlice);
    }

    /** Create: insert one role with the requested name and report 201. */
    method Create(name: string) returns (r: Result<int>)
      modifies db`roles, db`nextRoleId, db`log
      ensures r.Ok? ==> r.value == StatusCreated
      ensures r.Ok? ==> db.roles == old(db.roles) + [Role(old(db.nextRoleId), name)]
      ensures r.Ok? ==> db.nextRoleId == old(db.nextRoleId) + 1
      ensures r.Ok? ==> db.log == old(db.log) + [InsertedRole(Role(old(db.nextRoleId), name))]
      ensures r.Err? ==> db.roles == old(db.roles) && db.nextRoleId == old(db.nextRoleId) && db.log == old(db.log)
      ensures r.Err? ==> r.error == StorageError
      ensures IdsBelow(old(db.roles), old(db.nextRoleId)) ==> IdsBelow(db.roles, db.nextRoleId)
    {
      var inserted := db.InsertRole(name);
      if inserted.Err? {
        return Err(inserted.error);
      }
      return Ok(StatusCreated);
    }
  }
}
