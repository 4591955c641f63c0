/** The user service (app/user/pkg/handlers/user.go): listing users with
    their roles, and reconciling a user's roles against a requested list. */
module Users {
  import opened Store
  import opened Proto

  /** The ids a request names. */
  function Elems(s: seq<int>): set<int>
  {
    set x | x in s
  }

  /** The requested ids that are not assigned yet, in request order. The
      insert loop never adds to the set of current roles, so an id the
      request repeats is kept as often as it occurs. */
  function NewIds(roles: seq<int>, current: set<int>): seq<int>
  {
    if roles == [] then []
    else
      var last := roles[|roles| - 1];
      NewIds(roles[..|roles| - 1], current) + (if last in current then [] else [last])
  }

  /** The join rows inserted for `ids`. */
  function InsertRows(u: int, ids: seq<int>): seq<UserToRole>
  {
    seq(|ids|, i requires 0 <= i < |ids| => UserToRole(u, ids[i]))
  }

  /** The log entries of inserting the rows for `ids`, in order. */
  function InsertWrites(u: int, ids: seq<int>): seq<Write>
  {
    seq(|ids|, i requires 0 <= i < |ids| => InsertedUserRole(UserToRole(u, ids[i])))
  }

  /** The role ids that a sequence of writes deletes. */
  ghost function DeletedIds(ws: seq<Write>): set<int>
  {
    set w | w in ws && w.DeletedUserRole? :: w.row.roleId
  }

  /** `ws` deletes, for user `u`, each id of `ids` exactly once, and does nothing else. */
  ghost predicate DeletePhase(ws: seq<Write>, u: int, ids: set<int>)
  {
    && (forall w :: w in ws ==> w.DeletedUserRole? && w.row.userId == u)
    && DeletedIds(ws) == ids
    && |ws| == |ids|
  }

  /** The number of inserts a sequence of writes starts with. */
  function LeadingInserts(ws: seq<Write>): (k: nat)
    ensures k <= |ws|
    ensures forall i :: 0 <= i < k ==> ws[i].InsertedUserRole?
    ensures k < |ws| ==> !ws[k].InsertedUserRole?
  {
    if ws == [] || !ws[0].InsertedUserRole? then 0 else 1 + LeadingInserts(ws[1..])
  }

  /** The writes of a reconciliation that ran to the end: the planned inserts
      in request order, then one delete per current role that was not
      requested, in some order. */
  ghost predicate CompleteTrace(ws: seq<Write>, u: int, roles: seq<int>, current: set<int>)
  {
    var plan := InsertWrites(u, NewIds(roles, current));
    && |plan| <= |ws|
    && ws[..|plan|] == plan
    && DeletePhase(ws[|plan|..], u, current - Elems(roles))
  }

  /** The writes of a reconciliation that stopped at a failing write: a
      prefix of the planned inserts, and deletes of unrequested current roles
      only once every planned insert was made. */
  ghost predicate PartialTrace(ws: seq<Write>, u: int, roles: seq<int>, current: set<int>)
  {
    var plan := InsertWrites(u, NewIds(roles, current));
    var k := LeadingInserts(ws);
    && ws[..k] <= plan
    && (k < |ws| ==> ws[..k] == plan)
    && DeletePhase(ws[k..], u, DeletedIds(ws[k..]))
    && DeletedIds(ws[k..]) <= current - Elems(roles)
  }

  /** What a successful Assign leaves behind: the user holds exactly the
      requested ids; the table is the old one with the planned rows appended
      and the unrequested current roles deleted; the log grew by a complete
      trace; and no planned id was repeated. */
  ghost predicate Reconciled(rows0: seq<UserToRole>, log0: seq<Write>, rows: seq<UserToRole>, log: seq<Write>,
                             u: int, roles: seq<int>)
  {
    var cur := RoleIdsOf(rows0, u);
    && log0 <= log
    && RoleIdsOf(rows, u) == Elems(roles)
    && rows == Without(rows0 + InsertRows(u, NewIds(roles, cur)), u, cur - Elems(roles))
    && CompleteTrace(log[|log0|..], u, roles, cur)
    && Distinct(NewIds(roles, cur))
  }

  /** What a failed Assign leaves behind: the writes made before the failure
      stay, both in the log and in the table, which is the old one with the
      inserts made appended and the deletes made applied. They are a partial
      trace, so the user holds every role that was both held and requested,
      nothing outside either set, and either still every role held before
      (the failure came while inserting) or already every requested role (it
      came while deleting). */
  ghost predicate StoppedPartway(rows0: seq<UserToRole>, log0: seq<Write>, rows: seq<UserToRole>, log: seq<Write>,
                                 u: int, roles: seq<int>)
  {
    var cur, req, now := RoleIdsOf(rows0, u), Elems(roles), RoleIdsOf(rows, u);
    && log0 <= log
    && PartialTrace(log[|log0|..], u, roles, cur)
    && cur * req <= now <= cur + req
    && (cur <= now || req <= now)
    && var ws := log[|log0|..];
       var k := LeadingInserts(ws);
       && k <= |NewIds(roles, cur)|
       && rows == Without(rows0 + InsertRows(u, NewIds(roles, cur)[..k]), u, DeletedIds(ws[k..]))
  }

  /** Every user other than `u` has the same join rows, in the same order. */
  ghost predicate OthersUntouched(rows0: seq<UserToRole>, rows: seq<UserToRole>, u: int)
  {
    forall v :: v != u ==> RowsOf(rows, v) == RowsOf(rows0, v)
  }

  class UserService {
    const db: Db

    constructor (db: Db)
      ensures this.db == db
    {
      this.db := db;
    }

    /** GetAll: one entry per stored user, in store order, carrying the
        user's id, name and e-mail and the user's roles in relation order. */
    method GetAll() returns (r: Result<seq<UserInfo>>)
      ensures r.Err? ==> r.error == StorageError
      ensures r.Ok? ==> |r.value| == |db.users|
      ensures r.Ok? ==> forall i :: 0 <= i < |db.users| ==>
        var user, info := db.users[i], r.value[i];
        && info.id == user.id && info.name == user.name && info.email == user.email
        && |info.roles| == |RolesOf(db.userRoles, db.roles, user.id)|
        && forall j :: 0 <= j < |info.roles| ==>
             info.roles[j].id == RolesOf(db.userRoles, db.roles, user.id)[j].id
             && info.roles[j].name == RolesOf(db.userRoles, db.roles, user.id)[j].name
    {
      var users := db.SelectUsersWithRoles();
      if users.Err? {
        return Err(users.error);
      }
      var resSlice: seq<UserInfo> := [];
      for k := 0 to |users.value|
        invariant |resSlice| == k
        invariant forall i :: 0 <= i < k ==>
          var user, roles, info := users.value[i].0, users.value[i].1, resSlice[i];
          && info.id == user.id && info.name == user.name && info.email == user.email
          && |info.roles| == |roles|
          && forall j :: 0 <= j < |roles| ==> info.roles[j] == RoleInfo(roles[j].id, roles[j].name)
      {
        var (user, roles) := users.value[k];
        var rolesSlice := new RoleInfo[|roles|];
        for index := 0 to |roles|
          invariant forall j :: 0 <= j < index ==> rolesSlice[j] == RoleInfo(roles[j].id, roles[j].name)
        {
          rolesSlice[index] := RoleInfo(roles[index].id, roles[index].name);
        }
        resSlice := resSlice + [UserInfo(user.id, user.name, user.email, rolesSlice[..])];
      }
      return Ok(resSlice);
    }

    /** Assign: make the roles of `userId` the ids in `roles`. Inserts a join
        row for every requested id not currently held, then deletes every
        current role the request does not name; the first failing write ends
        the call with that error, and the writes made before it stay. */
    method Assign(userId: int, roles: seq<int>) returns (r: Result<int>)
      requires db.Valid()
      modifies db`userRoles, db`log
      ensures db.Valid()
      ensures r.Ok? ==> r.value == StatusCreated
      ensures r.Ok? ==> Reconciled(old(db.userRoles), old(db.log), db.userRoles, db.log, userId, roles)
      ensures r.Err? ==> StoppedPartway(old(db.userRoles), old(db.log), db.userRoles, db.log, userId, roles)
      ensures Elems(roles) == RoleIdsOf(old(db.userRoles), userId) ==>
        db.userRoles == old(db.userRoles) && db.log == old(db.log)
      ensures OthersUntouched(old(db.userRoles), db.userRoles, userId)
      ensures r.Err? ==>
        r.error == StorageError || !Distinct(NewIds(roles, RoleIdsOf(old(db.userRoles), userId)))
    {
      ghost var rows0 := db.userRoles;
      ghost var log0 := db.log;

      var userRoles := db.SelectUserRoles(userId);
      if userRoles.Err? {
        NothingWritten(rows0, log0, userId, roles);
        return Err(userRoles.error);
      }
      var rows := userRoles.value;

      var requestRoles: map<int, int> := map[];
      var currentRoles: map<int, int> := map[];
      for idx := 0 to |rows|
        invariant currentRoles.Keys == set j | 0 <= j < idx :: rows[j].roleId
      {
        currentRoles := currentRoles[rows[idx].roleId := idx];
      }
      for idx := 0 to |roles|
        invariant requestRoles.Keys == set j | 0 <= j < idx :: roles[j]
      {
        requestRoles := requestRoles[roles[idx] := idx];
      }
      CurrentRolesAre(rows0, userId, rows, currentRoles.Keys);
      RequestRolesAre(roles, requestRoles.Keys);

      var added := AddRequestedRoles(userId, roles, currentRoles);
      if added.Err? {
        return Err(added.error);
      }
      ghost var rows1, log1 := db.userRoles, db.log;
      ghost var deleted;
      var removed;
      removed, deleted := DeleteUnrequestedRoles(userId, roles, currentRoles, requestRoles);
      if removed.Err? {
        DeletePhaseStops(rows0, log0, rows1, log1, db.userRoles, db.log, deleted, userId, roles,
                         currentRoles.Keys, requestRoles.Keys);
        return Err(removed.error);
      }
      ReconcileComplete(rows0, log0, rows1, log1, db.userRoles, db.log, userId, roles,
                        currentRoles.Keys, requestRoles.Keys);
      return Ok(StatusCreated);
    }

    /** The insert loop of Assign: a join row for every requested id that is
        not a key of `currentRoles`, in request order. `currentRoles` is not
        updated, so an id the request repeats is inserted again, and the
        primary key refuses it. */
    method AddRequestedRoles(userId: int, roles: seq<int>, currentRoles: map<int, int>) returns (r: Result<()>)
      requires db.Valid()
      requires currentRoles.Keys == RoleIdsOf(db.userRoles, userId)
      modifies db`userRoles, db`log
      ensures db.Valid()
      ensures r.Ok? ==> db.userRoles == old(db.userRoles) + InsertRows(userId, NewIds(roles, currentRoles.Keys))
      ensures r.Ok? ==> db.log == old(db.log) + InsertWrites(userId, NewIds(roles, currentRoles.Keys))
      ensures r.Ok? ==> Distinct(NewIds(roles, currentRoles.Keys))
      ensures r.Err? ==> StoppedPartway(old(db.userRoles), old(db.log), db.userRoles, db.log, userId, roles)
      ensures r.Err? ==> OthersUntouched(old(db.userRoles), db.userRoles, userId)
      ensures r.Err? ==> !(Elems(roles) <= currentRoles.Keys)
      ensures r.Err? ==> r.error == StorageError || !Distinct(NewIds(roles, currentRoles.Keys))
    {
      ghost var rows0, log0, cur := db.userRoles, db.log, currentRoles.Keys;
      for i := 0 to |roles|
        invariant db.Valid()
        invariant db.userRoles == rows0 + InsertRows(userId, NewIds(roles[..i], cur))
        invariant db.log == log0 + InsertWrites(userId, NewIds(roles[..i], cur))
        invariant Distinct(NewIds(roles[..i], cur))
      {
        var roleId := roles[i];
        NewIdsStep(roles, i, cur);
        if roleId !in currentRoles {
          var inserted := db.InsertUserRole(UserToRole(userId, roleId));
          if inserted.Err? {
            assert roleId in Elems(roles);
            if inserted.error != StorageError {
              RepeatNotDistinct(rows0, roles, i, cur, userId);
            }
            InsertPhaseStops(rows0, log0, db.userRoles, db.log, userId, roles, i, cur);
            return Err(inserted.error);
          }
          DistinctSnoc(rows0, NewIds(roles[..i], cur), roleId, userId);
        }
      }
      assert roles[..|roles|] == roles;
      return Ok(());
    }

    /** The delete loop of Assign: for every key of `currentRoles`, in no
        particular order, a delete of the user's join row when the id is not
        a key of `requestRoles`. `deleted` is the set of ids deleted. */
    method DeleteUnrequestedRoles(userId: int, ghost roles: seq<int>, currentRoles: map<int, int>, requestRoles: map<int, int>)
      returns (r: Result<()>, ghost deleted: set<int>)
      requires db.Valid()
      requires requestRoles.Keys == Elems(roles)
      modifies db`userRoles, db`log
      ensures db.Valid()
      ensures old(db.log) <= db.log
      ensures deleted <= currentRoles.Keys - requestRoles.Keys
      ensures r.Ok? ==> deleted == currentRoles.Keys - requestRoles.Keys
      ensures db.userRoles == Without(old(db.userRoles), userId, deleted)
      ensures DeletePhase(db.log[|old(db.log)|..], userId, deleted)
      ensures currentRoles.Keys <= requestRoles.Keys ==> r.Ok?
      ensures r.Err? ==> r.error == StorageError
    {
      ghost var rows1, log1 := db.userRoles, db.log;
      ghost var cur, req := currentRoles.Keys, requestRoles.Keys;
      ghost var dels: seq<Write> := [];
      deleted := {};
      var pending := currentRoles.Keys;
      DeleteLoopStarts(rows1, log1, userId, cur, req);
      while pending != {}
        invariant db.Valid()
        invariant DeleteLoop(rows1, log1, db.userRoles, db.log, userId, cur, req, pending, deleted, dels)
        decreases pending
      {
        var roleId := Pick(pending);
        ghost var rows, log := db.userRoles, db.log;
        if roleId !in requestRoles {
          var removed := db.DeleteUserRole(userId, roleId);
          if removed.Err? {
            DeleteLoopStops(rows1, log1, db.userRoles, db.log, userId, cur, req, pending, deleted, dels);
            return Err(removed.error), deleted;
          }
          DeleteLoopDrops(rows1, log1, rows, log, userId, cur, req, pending, deleted, dels, roleId);
          dels := dels + [DeletedUserRole(UserToRole(userId, roleId))];
          deleted := deleted + {roleId};
        } else {
          DeleteLoopKeeps(rows1, log1, rows, log, userId, cur, req, pending, deleted, dels, roleId);
        }
        pending := pending - {roleId};
      }
      DeleteLoopStops(rows1, log1, db.userRoles, db.log, userId, cur, req, pending, deleted, dels);
      return Ok(()), deleted;
    }
  }

  /** The state of the delete loop: the keys visited so far are those not
      pending, the unrequested ones among them are deleted, and the log grew
      by exactly those deletes. */
  ghost predicate DeleteLoop(rows1: seq<UserToRole>, log1: seq<Write>, rows: seq<UserToRole>, log: seq<Write>,
                             u: int, cur: set<int>, req: set<int>, pending: set<int>, deleted: set<int>, dels: seq<Write>)
  {
    && pending <= cur
    && deleted == (cur - pending) - req
    && rows == Without(rows1, u, deleted)
    && log == log1 + dels
    && DeletePhase(dels, u, deleted)
  }

  lemma DeleteLoopStarts(rows1: seq<UserToRole>, log1: seq<Write>, u: int, cur: set<int>, req: set<int>)
    ensures DeleteLoop(rows1, log1, rows1, log1, u, cur, req, cur, {}, [])
  {
    WithoutNothing(rows1, u);
    assert log1 + [] == log1;
  }

  lemma DeleteLoopDrops(rows1: seq<UserToRole>, log1: seq<Write>, rows: seq<UserToRole>, log: seq<Write>,
                        u: int, cur: set<int>, req: set<int>, pending: set<int>, deleted: set<int>, dels: seq<Write>, x: int)
    requires DeleteLoop(rows1, log1, rows, log, u, cur, req, pending, deleted, dels)
    requires x in pending && x !in req
    ensures var w := DeletedUserRole(UserToRole(u, x));
      DeleteLoop(rows1, log1, Without(rows, u, {x}), log + [w], u, cur, req, pending - {x}, deleted + {x}, dels + [w])
  {
    var w := DeletedUserRole(UserToRole(u, x));
    WithoutWithout(rows1, u, deleted, {x});
    DeletePhaseStep(dels, u, deleted, x);
    AppendAssoc(log1, dels, w);
  }

  lemma DeleteLoopKeeps(rows1: seq<UserToRole>, log1: seq<Write>, rows: seq<UserToRole>, log: seq<Write>,
                        u: int, cur: set<int>, req: set<int>, pending: set<int>, deleted: set<int>, dels: seq<Write>, x: int)
    requires DeleteLoop(rows1, log1, rows, log, u, cur, req, pending, deleted, dels)
    requires x in pending && x in req
    ensures DeleteLoop(rows1, log1, rows, log, u, cur, req, pending - {x}, deleted, dels)
  {
  }

  lemma DeleteLoopStops(rows1: seq<UserToRole>, log1: seq<Write>, rows: seq<UserToRole>, log: seq<Write>,
                        u: int, cur: set<int>, req: set<int>, pending: set<int>, deleted: set<int>, dels: seq<Write>)
    requires DeleteLoop(rows1, log1, rows, log, u, cur, req, pending, deleted, dels)
    ensures log1 <= log && log[|log1|..] == dels
    ensures deleted <= cur - req
    ensures pending == {} ==> deleted == cur - req
    ensures cur <= req ==> deleted == {}
  {
    assert log[|log1|..] == dels;
  }

  /** The next key of a map range loop: any one of those not visited yet. */
  method Pick(pending: set<int>) returns (x: int)
    requires pending != {}
    ensures x in pending
  {
    if forall y :: y !in pending {
      EmptyIfNone(pending);
      assert false;
    }
    x :| x in pending;
  }

  lemma EmptyIfNone(s: set<int>)
    requires forall x :: x !in s
    ensures s == {}
  {
    assert forall x :: x in s <==> x in {};
  }

  // ---- the steps of Assign ----

  /** The keys of currentRoles are the user's role ids. */
  lemma CurrentRolesAre(table: seq<UserToRole>, u: int, rows: seq<UserToRole>, keys: set<int>)
    requires rows == RowsOf(table, u)
    requires keys == set j | 0 <= j < |rows| :: rows[j].roleId
    ensures keys == RoleIdsOf(table, u)
  {
    forall x | x in RoleIdsOf(table, u) ensures x in keys {
      var row :| row in table && row.userId == u && row.roleId == x;
      assert row in rows;
      var j :| 0 <= j < |rows| && rows[j] == row;
    }
  }

  /** The keys of requestRoles are the requested ids. */
  lemma RequestRolesAre(roles: seq<int>, keys: set<int>)
    requires keys == set j | 0 <= j < |roles| :: roles[j]
    ensures keys == Elems(roles)
  {
    forall x | x in Elems(roles) ensures x in keys {
      var j :| 0 <= j < |roles| && roles[j] == x;
    }
  }

  lemma NewIdsStep(roles: seq<int>, i: int, cur: set<int>)
    requires 0 <= i < |roles|
    ensures NewIds(roles[..i + 1], cur) == NewIds(roles[..i], cur) + (if roles[i] in cur then [] else [roles[i]])
  {
    assert roles[..i + 1][..i] == roles[..i];
  }

  lemma DistinctSnoc(rows0: seq<UserToRole>, s: seq<int>, x: int, u: int)
    requires Distinct(s)
    requires UserToRole(u, x) !in rows0 + InsertRows(u, s)
    ensures Distinct(s + [x])
  {
    forall k | 0 <= k < |s| ensures s[k] != x {
      assert (rows0 + InsertRows(u, s))[|rows0| + k] == UserToRole(u, s[k]);
    }
  }

  lemma DeletePhaseStep(dels: seq<Write>, u: int, deleted: set<int>, x: int)
    requires DeletePhase(dels, u, deleted)
    requires x !in deleted
    ensures DeletePhase(dels + [DeletedUserRole(UserToRole(u, x))], u, deleted + {x})
  {
    var ws := dels + [DeletedUserRole(UserToRole(u, x))];
    assert DeletedIds(ws) == DeletedIds(dels) + {x} by {
      forall y | y in DeletedIds(ws) ensures y in DeletedIds(dels) + {x} {
        var w :| w in ws && w.DeletedUserRole? && w.row.roleId == y;
        if w != ws[|ws| - 1] {
          var k :| 0 <= k < |ws| && ws[k] == w;
          assert w == dels[k];
        }
      }
      forall y | y in DeletedIds(dels) ensures y in DeletedIds(ws) {
        var w :| w in dels && w.DeletedUserRole? && w.row.roleId == y;
        assert w in ws;
      }
      assert ws[|ws| - 1] in ws;
    }
  }

  lemma AppendAssoc(a: seq<Write>, b: seq<Write>, w: Write)
    ensures a + b + [w] == a + (b + [w])
  {
  }

  lemma WithoutNothing(rows: seq<UserToRole>, u: int)
    ensures Without(rows, u, {}) == rows
  {
    if rows != [] {
      WithoutNothing(rows[1..], u);
      assert rows == [rows[0]] + rows[1..];
    }
  }

  /** A store failure before any write leaves everything as it was. */
  lemma NothingWritten(rows0: seq<UserToRole>, log0: seq<Write>, u: int, roles: seq<int>)
    ensures StoppedPartway(rows0, log0, rows0, log0, u, roles)
  {
    assert log0[|log0|..] == [];
    assert DeletedIds([]) == {};
    assert rows0 + InsertRows(u, NewIds(roles, RoleIdsOf(rows0, u))[..0]) == rows0;
    WithoutNothing(rows0, u);
  }

  // ---- facts about the plan of inserts ----

  lemma {:induction false} NewIdsAppend(a: seq<int>, b: seq<int>, current: set<int>)
    ensures NewIds(a + b, current) == NewIds(a, current) + NewIds(b, current)
  {
    if b == [] {
      assert a + b == a;
    } else {
      var b' := b[..|b| - 1];
      assert (a + b)[..|a + b| - 1] == a + b';
      NewIdsAppend(a, b', current);
    }
  }

  lemma ElemsAppend(a: seq<int>, b: seq<int>)
    ensures Elems(a + b) == Elems(a) + Elems(b)
  {
    assert forall x :: x in a + b <==> x in a || x in b;
  }

  /** The planned inserts name exactly the requested ids that are not held. */
  lemma {:induction false} NewIdsElems(roles: seq<int>, current: set<int>)
    ensures Elems(NewIds(roles, current)) == Elems(roles) - current
  {
    if roles != [] {
      var init := roles[..|roles| - 1];
      NewIdsElems(init, current);
      var last := roles[|roles| - 1];
      assert roles == init + [last];
      ElemsAppend(init, [last]);
      ElemsAppend(NewIds(init, current), if last in current then [] else [last]);
    }
  }

  /** Nothing is planned when every requested id is already held. */
  lemma {:induction false} NoNewIds(roles: seq<int>, current: set<int>)
    requires Elems(roles) <= current
    ensures NewIds(roles, current) == []
  {
    if roles != [] {
      var init := roles[..|roles| - 1];
      assert roles[|roles| - 1] in Elems(roles);
      assert Elems(init) <= Elems(roles);
      NoNewIds(init, current);
    }
  }

  /** A sequence without repeats has as many elements as its set. */
  lemma {:induction false} DistinctCard(s: seq<int>)
    requires Distinct(s)
    ensures |Elems(s)| == |s|
  {
    if s != [] {
      var init := s[..|s| - 1];
      assert Distinct(init);
      DistinctCard(init);
      assert s == init + [s[|s| - 1]];
      assert Elems(s) == Elems(init) + {s[|s| - 1]};
      assert s[|s| - 1] !in Elems(init);
    }
  }

  /** A user none of whose rows are in `rows` has no rows there. */
  lemma {:induction false} RowsOfNone(rows: seq<UserToRole>, v: int)
    requires forall x :: x in rows ==> x.userId != v
    ensures RowsOf(rows, v) == []
  {
    if rows != [] {
      RowsOfNone(rows[1..], v);
    }
  }

  lemma InsertRowsIds(u: int, ids: seq<int>)
    ensures RoleIdsOf(InsertRows(u, ids), u) == Elems(ids)
    ensures forall v :: v != u ==> RowsOf(InsertRows(u, ids), v) == []
  {
    var rows := InsertRows(u, ids);
    forall x | x in Elems(ids) ensures x in RoleIdsOf(rows, u) {
      var j :| 0 <= j < |ids| && ids[j] == x;
      assert rows[j] == UserToRole(u, x);
    }
    forall v | v != u ensures RowsOf(rows, v) == [] {
      RowsOfNone(rows, v);
    }
  }

  lemma RoleIdsAppend(a: seq<UserToRole>, b: seq<UserToRole>, u: int)
    ensures RoleIdsOf(a + b, u) == RoleIdsOf(a, u) + RoleIdsOf(b, u)
  {
  }

  lemma {:induction false} LeadingInsertsOf(ins: seq<Write>, dels: seq<Write>)
    requires forall w :: w in ins ==> w.InsertedUserRole?
    requires dels != [] ==> !dels[0].InsertedUserRole?
    ensures LeadingInserts(ins + dels) == |ins|
  {
    if ins == [] {
      assert ins + dels == dels;
    } else {
      assert (ins + dels)[1..] == ins[1..] + dels;
      LeadingInsertsOf(ins[1..], dels);
    }
  }

  /** The table after the planned inserts and some deletes, for every other user. */
  lemma OthersAfter(rows0: seq<UserToRole>, u: int, ids: seq<int>, deleted: set<int>)
    ensures OthersUntouched(rows0, Without(rows0 + InsertRows(u, ids), u, deleted), u)
  {
    forall v | v != u ensures RowsOf(Without(rows0 + InsertRows(u, ids), u, deleted), v) == RowsOf(rows0, v) {
      WithoutKeepsOthers(rows0 + InsertRows(u, ids), u, deleted, v);
      InsertRowsIds(u, ids);
      RowsOfAppend(rows0, InsertRows(u, ids), v);
    }
  }

  /** The role ids after the planned inserts and some deletes. */
  lemma HeldAfter(rows0: seq<UserToRole>, u: int, ids: seq<int>, deleted: set<int>)
    ensures RoleIdsOf(Without(rows0 + InsertRows(u, ids), u, deleted), u) == (RoleIdsOf(rows0, u) + Elems(ids)) - deleted
  {
    RoleIdsWithout(rows0 + InsertRows(u, ids), u, deleted);
    RoleIdsAppend(rows0, InsertRows(u, ids), u);
    InsertRowsIds(u, ids);
  }

  /** An insert that the primary key refuses can only be a requested id that
      was not held and is already in the plan, so the plan repeats it. */
  lemma RepeatNotDistinct(rows0: seq<UserToRole>, roles: seq<int>, i: int, cur: set<int>, u: int)
    requires 0 <= i < |roles|
    requires cur == RoleIdsOf(rows0, u)
    requires roles[i] !in cur
    requires UserToRole(u, roles[i]) in rows0 + InsertRows(u, NewIds(roles[..i], cur))
    ensures !Distinct(NewIds(roles, cur))
  {
    var done, x := NewIds(roles[..i], cur), roles[i];
    assert UserToRole(u, x) !in rows0;
    var k :| 0 <= k < |InsertRows(u, done)| && InsertRows(u, done)[k] == UserToRole(u, x);
    NewIdsStep(roles, i, cur);
    assert roles == roles[..i + 1] + roles[i + 1..];
    NewIdsAppend(roles[..i + 1], roles[i + 1..], cur);
    var plan := NewIds(roles, cur);
    assert plan[k] == x && plan[|done|] == x;
  }

  /** The rows and log after the insert loop stopped at index `i`. */
  lemma InsertPhaseStops(rows0: seq<UserToRole>, log0: seq<Write>, rows: seq<UserToRole>, log: seq<Write>,
                         u: int, roles: seq<int>, i: int, cur: set<int>)
    requires 0 <= i < |roles|
    requires cur == RoleIdsOf(rows0, u)
    requires rows == rows0 + InsertRows(u, NewIds(roles[..i], cur))
    requires log == log0 + InsertWrites(u, NewIds(roles[..i], cur))
    ensures StoppedPartway(rows0, log0, rows, log, u, roles)
    ensures OthersUntouched(rows0, rows, u)
  {
    var done := NewIds(roles[..i], cur);
    var ws := log[|log0|..];
    assert ws == InsertWrites(u, done);
    assert roles == roles[..i] + roles[i..];
    NewIdsAppend(roles[..i], roles[i..], cur);
    assert InsertWrites(u, NewIds(roles, cur)) == InsertWrites(u, done) + InsertWrites(u, NewIds(roles[i..], cur));
    assert NewIds(roles, cur)[..|done|] == done;
    LeadingInsertsOf(ws, []);
    assert ws + [] == ws;
    assert ws[LeadingInserts(ws)..] == [];
    assert DeletedIds([]) == {};
    WithoutNothing(rows, u);
    HeldAfter(rows0, u, done, {});
    NewIdsElems(roles[..i], cur);
    assert Elems(roles[..i]) <= Elems(roles);
    OthersAfter(rows0, u, done, {});
  }

  /** The log after the planned inserts and some deletes: the inserts are
      the leading ones, and the deletes follow them. */
  lemma InsertsThenDeletes(log0: seq<Write>, log1: seq<Write>, log: seq<Write>, u: int, ids: seq<int>, deleted: set<int>)
    requires log1 == log0 + InsertWrites(u, ids)
    requires log1 <= log
    requires DeletePhase(log[|log1|..], u, deleted)
    ensures log0 <= log
    ensures var ws := log[|log0|..];
      && LeadingInserts(ws) == |ids|
      && ws[..|ids|] == InsertWrites(u, ids)
      && ws[|ids|..] == log[|log1|..]
  {
    var plan, dels, ws := InsertWrites(u, ids), log[|log1|..], log[|log0|..];
    assert ws == plan + dels;
    if dels != [] {
      assert dels[0] in dels;
    }
    LeadingInsertsOf(plan, dels);
    assert ws[..|plan|] == plan && ws[|plan|..] == dels;
  }

  /** The roles held after the planned inserts and some unrequested deletes:
      every requested one, and of the others only current ones. */
  lemma HeldAfterDeletes(rows0: seq<UserToRole>, rows: seq<UserToRole>, u: int, roles: seq<int>,
                         cur: set<int>, deleted: set<int>)
    requires cur == RoleIdsOf(rows0, u)
    requires rows == Without(rows0 + InsertRows(u, NewIds(roles, cur)), u, deleted)
    requires deleted <= cur - Elems(roles)
    ensures RoleIdsOf(rows, u) == (cur + Elems(roles)) - deleted
  {
    HeldAfter(rows0, u, NewIds(roles, cur), deleted);
    NewIdsElems(roles, cur);
  }

  /** The rows and log after the delete loop stopped at a failing delete. */
  lemma DeletePhaseStops(rows0: seq<UserToRole>, log0: seq<Write>, rows1: seq<UserToRole>, log1: seq<Write>,
                         rows: seq<UserToRole>, log: seq<Write>, deleted: set<int>,
                         u: int, roles: seq<int>, cur: set<int>, req: set<int>)
    requires cur == RoleIdsOf(rows0, u)
    requires req == Elems(roles)
    requires rows1 == rows0 + InsertRows(u, NewIds(roles, cur))
    requires log1 == log0 + InsertWrites(u, NewIds(roles, cur))
    requires log1 <= log
    requires rows == Without(rows1, u, deleted)
    requires DeletePhase(log[|log1|..], u, deleted)
    requires deleted <= cur - req
    ensures StoppedPartway(rows0, log0, rows, log, u, roles)
    ensures log0 <= log
    ensures var ws := log[|log0|..];
      LeadingInserts(ws) == |NewIds(roles, cur)| && ws[..LeadingInserts(ws)] == InsertWrites(u, NewIds(roles, cur))
    ensures OthersUntouched(rows0, rows, u)
  {
    InsertsThenDeletes(log0, log1, log, u, NewIds(roles, cur), deleted);
    assert NewIds(roles, cur)[..|NewIds(roles, cur)|] == NewIds(roles, cur);
    HeldAfterDeletes(rows0, rows, u, roles, cur, deleted);
    OthersAfter(rows0, u, NewIds(roles, cur), deleted);
  }

  /** The rows and log after both loops ran to the end. */
  lemma ReconcileComplete(rows0: seq<UserToRole>, log0: seq<Write>, rows1: seq<UserToRole>, log1: seq<Write>,
                          rows: seq<UserToRole>, log: seq<Write>, u: int, roles: seq<int>, cur: set<int>, req: set<int>)
    requires cur == RoleIdsOf(rows0, u)
    requires req == Elems(roles)
    requires rows1 == rows0 + InsertRows(u, NewIds(roles, cur))
    requires log1 == log0 + InsertWrites(u, NewIds(roles, cur))
    requires Distinct(NewIds(roles, cur))
    requires log1 <= log
    requires rows == Without(rows1, u, cur - req)
    requires DeletePhase(log[|log1|..], u, cur - req)
    ensures Reconciled(rows0, log0, rows, log, u, roles)
    ensures req == cur ==> rows == rows0 && log == log0
    ensures OthersUntouched(rows0, rows, u)
  {
    InsertsThenDeletes(log0, log1, log, u, NewIds(roles, cur), cur - req);
    HeldAfterDeletes(rows0, rows, u, roles, cur, cur - req);
    if req == cur {
      NoNewIds(roles, cur);
      assert rows1 == rows0 && log1 == log0;
      assert cur - req == {};
      WithoutNothing(rows0, u);
      assert |log[|log1|..]| == 0;
      assert log == log1;
    }
    OthersAfter(rows0, u, NewIds(roles, cur), cur - req);
  }

  // ---- what a reconciliation achieves ----

  /** Set equality: appending the planned rows and then deleting the
      unrequested current roles leaves the user holding exactly the
      requested ids, whatever the user held before. */
  lemma ReconcileReachesRequest(rows: seq<UserToRole>, u: int, roles: seq<int>)
    ensures
      var cur := RoleIdsOf(rows, u);
      RoleIdsOf(Without(rows + InsertRows(u, NewIds(roles, cur)), u, cur - Elems(roles)), u) == Elems(roles)
  {
    var cur := RoleIdsOf(rows, u);
    HeldAfter(rows, u, NewIds(roles, cur), cur - Elems(roles));
    NewIdsElems(roles, cur);
  }

  /** Minimal writes: a completed reconciliation makes one write per id in
      the symmetric difference of the held and the requested roles. */
  lemma MinimalWrites(ws: seq<Write>, u: int, roles: seq<int>, cur: set<int>)
    requires CompleteTrace(ws, u, roles, cur)
    requires Distinct(NewIds(roles, cur))
    ensures |ws| == |Elems(roles) - cur| + |cur - Elems(roles)|
  {
    var plan := InsertWrites(u, NewIds(roles, cur));
    assert ws == ws[..|plan|] + ws[|plan|..];
    DistinctCard(NewIds(roles, cur));
    NewIdsElems(roles, cur);
  }

  /** Idempotence: once the user holds the requested ids, reconciling again
      makes no write at all. */
  lemma NothingToDo(ws: seq<Write>, u: int, roles: seq<int>)
    requires CompleteTrace(ws, u, roles, Elems(roles))
    ensures ws == []
  {
    NoNewIds(roles, Elems(roles));
    assert Elems(roles) - Elems(roles) == {};
  }

  /** An empty request removes every join row of the user. */
  lemma EmptyRequestClears(rows: seq<UserToRole>, u: int)
    ensures
      var cur := RoleIdsOf(rows, u);
      RowsOf(Without(rows + InsertRows(u, NewIds([], cur)), u, cur - Elems([])), u) == []
  {
    var cur := RoleIdsOf(rows, u);
    assert rows + InsertRows(u, NewIds([], cur)) == rows;
    forall x | x in Without(rows, u, cur - Elems([])) ensures x.userId != u {
      WithoutHas(rows, u, cur - Elems([]), x);
    }
    RowsOfNone(Without(rows, u, cur - Elems([])), u);
  }

  /** The worked example: a user holding roles 2 and 3 who asks for [1, 2]
      gets role 1 inserted, role 3 deleted and role 2 left alone. */
  lemma ReconcileExample(ws: seq<Write>)
    requires CompleteTrace(ws, 5, [1, 2], {2, 3})
    ensures ws == [InsertedUserRole(UserToRole(5, 1)), DeletedUserRole(UserToRole(5, 3))]
  {
    var roles := [1, 2];
    assert roles[..1] == [1] && roles[..1][..0] == [];
    assert NewIds(roles, {2, 3}) == [1];
    assert Elems(roles) == {1, 2};
    var dels := ws[1..];
    assert |dels| == 1;
    assert dels[0] in dels;
    assert DeletedIds(dels) == {3};
    assert dels[0].row.roleId == 3;
  }
}
