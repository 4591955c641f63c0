/** The permission service (app/user/pkg/handlers/service.go): listing
    services, creating grants, listing the grants of a service, and
    computing a user's permission matrix, a map from keys such as
    "billing.read" to whether any of the user's roles grants that action. */
module Permissions {
  import opened Store
  import opened Proto

  // ---- the permission matrix as a value ----

  datatype Action = Read | Write | Manage

  /** The suffix a key carries for each action. */
  function Suffix(a: Action): string
  {
    match a
    case Read => ".read"
    case Write => ".write"
    case Manage => ".manage"
  }

  /** The matrix key of action `a` on the service named `svc`. */
  function Key(svc: string, a: Action): string
  {
    svc + Suffix(a)
  }

  /** The flag a grant sets for action `a`. */
  function Flag(p: Permission, a: Action): bool
  {
    match a
    case Read => p.read
    case Write => p.write
    case Manage => p.manage
  }

  /** ASCII lower case; other characters are kept. */
  function LowerChar(c: char): char
  {
    if 'A' <= c <= 'Z' then (c as int + 32) as char else c
  }

  /** The service name as it appears in keys, lower-cased. */
  function Lower(s: string): string
  {
    if s == [] then [] else [LowerChar(s[0])] + Lower(s[1..])
  }

  /** Lower-casing works character by character. */
  lemma {:induction false} LowerChars(s: string)
    ensures |Lower(s)| == |s|
    ensures forall i :: 0 <= i < |s| ==> Lower(s)[i] == LowerChar(s[i])
  {
    if s != [] {
      LowerChars(s[1..]);
    }
  }

  /** Reading a Go map: a missing key reads as false. */
  function Lookup(m: map<string, bool>, k: string): bool
  {
    if k in m then m[k] else false
  }

  /** One grant as the merge loop sees it: the lower-cased name of its
      service and the grant itself. */
  datatype Cell = Cell(service: string, grant: Permission)

  /** Folding one grant into the matrix: each of its three keys that does not
      already read true takes the grant's flag. */
  function Merge(m: map<string, bool>, c: Cell): (r: map<string, bool>)
    ensures forall a :: Key(c.service, a) in r && r[Key(c.service, a)] == (Lookup(m, Key(c.service, a)) || Flag(c.grant, a))
  {
    var kr, kw, km := Key(c.service, Read), Key(c.service, Write), Key(c.service, Manage);
    var m1 := if Lookup(m, kr) != true then m[kr := c.grant.read] else m;
    var m2 := if Lookup(m1, kw) != true then m1[kw := c.grant.write] else m1;
    if Lookup(m2, km) != true then m2[km := c.grant.manage] else m2
  }

  /** The matrix the merge loop builds from `cells`, in order. */
  function Matrix(cells: seq<Cell>): map<string, bool>
  {
    if cells == [] then map[]
    else Merge(Matrix(cells[..|cells| - 1]), cells[|cells| - 1])
  }

  /** Key `k` names an action on the service of some cell. */
  ghost predicate Covers(cells: seq<Cell>, k: string)
  {
    exists c, a :: c in cells && k == Key(c.service, a)
  }

  /** Some cell of service `svc` grants action `a`. */
  ghost predicate Granted(cells: seq<Cell>, svc: string, a: Action)
  {
    exists c :: c in cells && c.service == svc && Flag(c.grant, a)
  }

  // ---- keys ----

  lemma KeyParts(svc: string, a: Action)
    ensures |Key(svc, a)| == |svc| + |Suffix(a)|
    ensures Key(svc, a)[..|svc|] == svc
    ensures Key(svc, a)[|Key(svc, a)| - 5..] == Suffix(a)[|Suffix(a)| - 5..]
  {
  }

  /** Distinct services or actions give distinct keys, whatever the service
      names contain: the last five characters tell the action apart. */
  lemma KeyInjective(s1: string, a1: Action, s2: string, a2: Action)
    requires Key(s1, a1) == Key(s2, a2)
    ensures s1 == s2 && a1 == a2
  {
    KeyParts(s1, a1);
    KeyParts(s2, a2);
    var k := Key(s1, a1);
    assert Suffix(a1)[|Suffix(a1)| - 5..] == Suffix(a2)[|Suffix(a2)| - 5..];
    assert a1 == a2 by {
      match a1
      case Read => assert Suffix(a1)[|Suffix(a1)| - 5..] == ".read";
      case Write => assert Suffix(a1)[|Suffix(a1)| - 5..] == "write";
      case Manage => assert Suffix(a1)[|Suffix(a1)| - 5..] == "anage";
    }
    assert s1 == k[..|s1|];
  }

  // ---- one merge step ----

  /** What one merge does: the cell's three keys read as before or-ed with
      its flags; every other key is untouched. */
  lemma MergeStep(m: map<string, bool>, c: Cell, svc: string, a: Action)
    ensures Key(svc, a) in Merge(m, c) <==> Key(svc, a) in m || svc == c.service
    ensures Lookup(Merge(m, c), Key(svc, a)) ==
      (Lookup(m, Key(svc, a)) || (svc == c.service && Flag(c.grant, a)))
  {
    forall b | Key(svc, a) == Key(c.service, b)
      ensures svc == c.service && a == b
    {
      KeyInjective(svc, a, c.service, b);
    }
  }

  lemma MergeKeys(m: map<string, bool>, c: Cell, k: string)
    ensures k in Merge(m, c) <==> k in m || exists a :: k == Key(c.service, a)
  {
    if k == Key(c.service, Read) || k == Key(c.service, Write) || k == Key(c.service, Manage) {
    } else {
      forall a ensures k != Key(c.service, a) {
        match a
        case Read =>
        case Write =>
        case Manage =>
      }
    }
  }

  lemma GrantedSnoc(init: seq<Cell>, c: Cell, svc: string, a: Action)
    ensures Granted(init + [c], svc, a) <==> Granted(init, svc, a) || (c.service == svc && Flag(c.grant, a))
  {
    if Granted(init + [c], svc, a) {
      var d :| d in init + [c] && d.service == svc && Flag(d.grant, a);
      if d != c {
        assert d in init;
      }
    }
    if Granted(init, svc, a) {
      var d :| d in init && d.service == svc && Flag(d.grant, a);
      assert d in init + [c];
    }
    assert c in init + [c];
  }

  lemma CoversSnoc(init: seq<Cell>, c: Cell, k: string)
    ensures Covers(init + [c], k) <==> Covers(init, k) || exists a :: k == Key(c.service, a)
  {
    if Covers(init + [c], k) {
      var d, a :| d in init + [c] && k == Key(d.service, a);
      if d != c {
        assert d in init;
      }
    }
    if Covers(init, k) {
      var d, a :| d in init && k == Key(d.service, a);
      assert d in init + [c];
    }
    assert c in init + [c];
  }

  // ---- what the matrix means ----

  /** A key reads true exactly when some grant of its service sets its
      action: the matrix is the or of the flags over the grants. */
  lemma {:induction false} MatrixLookup(cells: seq<Cell>, svc: string, a: Action)
    ensures Lookup(Matrix(cells), Key(svc, a)) == Granted(cells, svc, a)
    decreases |cells|
  {
    if cells != [] {
      var init, c := cells[..|cells| - 1], cells[|cells| - 1];
      assert cells == init + [c];
      MatrixLookup(init, svc, a);
      MergeStep(Matrix(init), c, svc, a);
      GrantedSnoc(init, c, svc, a);
    }
  }

  /** The matrix has a key exactly for each action on the service of each grant. */
  lemma {:induction false} MatrixKeys(cells: seq<Cell>, k: string)
    ensures k in Matrix(cells) <==> Covers(cells, k)
    decreases |cells|
  {
    if cells != [] {
      var init, c := cells[..|cells| - 1], cells[|cells| - 1];
      assert cells == init + [c];
      MatrixKeys(init, k);
      MergeKeys(Matrix(init), c, k);
      CoversSnoc(init, c, k);
    }
  }

  /** The matrix depends only on which grants are visited: two cell lists
      with the same members, in any order and with any repeats, give the
      same map. */
  lemma MatrixSameCells(c1: seq<Cell>, c2: seq<Cell>)
    requires forall c :: c in c1 <==> c in c2
    ensures Matrix(c1) == Matrix(c2)
  {
    var m1, m2 := Matrix(c1), Matrix(c2);
    forall k ensures k in m1 <==> k in m2 {
      MatrixKeys(c1, k);
      MatrixKeys(c2, k);
    }
    forall k | k in m1 ensures m1[k] == m2[k] {
      MatrixKeys(c1, k);
      var c, a :| c in c1 && k == Key(c.service, a);
      MatrixLookup(c1, c.service, a);
      MatrixLookup(c2, c.service, a);
      MatrixKeys(c2, k);
    }
    assert m1.Keys == m2.Keys;
  }

  /** Any permutation of the cells gives the same matrix. */
  lemma MatrixOrderFree(c1: seq<Cell>, c2: seq<Cell>)
    requires multiset(c1) == multiset(c2)
    ensures Matrix(c1) == Matrix(c2)
  {
    forall c ensures c in c1 <==> c in c2 {
      assert c in c1 <==> c in multiset(c1);
      assert c in c2 <==> c in multiset(c2);
    }
    MatrixSameCells(c1, c2);
  }

  /** A key that reads true stays true whatever grants are merged after it:
      no role can take back what another role grants. */
  lemma MatrixKeepsGrants(cells: seq<Cell>, more: seq<Cell>, k: string)
    requires Lookup(Matrix(cells), k)
    ensures Lookup(Matrix(cells + more), k)
  {
    MatrixKeys(cells, k);
    var c, a :| c in cells && k == Key(c.service, a);
    MatrixLookup(cells, c.service, a);
    var d :| d in cells && d.service == c.service && Flag(d.grant, a);
    assert d in cells + more;
    MatrixLookup(cells + more, c.service, a);
  }

  /** The first grant lands on an empty map, so the loop's unconditional
      first-iteration writes agree with the guarded ones of later iterations. */
  lemma FirstMerge(c: Cell)
    ensures Merge(map[], c) ==
      map[Key(c.service, Read) := c.grant.read,
          Key(c.service, Write) := c.grant.write,
          Key(c.service, Manage) := c.grant.manage]
  {
    if Key(c.service, Read) == Key(c.service, Write) {
      KeyInjective(c.service, Read, c.service, Write);
    }
    if Key(c.service, Read) == Key(c.service, Manage) {
      KeyInjective(c.service, Read, c.service, Manage);
    }
    if Key(c.service, Write) == Key(c.service, Manage) {
      KeyInjective(c.service, Write, c.service, Manage);
    }
  }

  /** Service names that differ only in case share their keys. */
  lemma CaseShared(s1: string, s2: string)
    requires |s1| == |s2|
    requires forall i :: 0 <= i < |s1| ==> LowerChar(s1[i]) == LowerChar(s2[i])
    ensures forall a :: Key(Lower(s1), a) == Key(Lower(s2), a)
  {
    LowerChars(s1);
    LowerChars(s2);
    assert Lower(s1) == Lower(s2);
  }

  // ---- from the store to the cells ----

  /** The has-many relation followed for each role in turn: the grants of
      all of `roles`, role by role, each role's in table order. */
  function RoleGrants(perms: seq<Permission>, roles: seq<Role>): seq<Permission>
  {
    if roles == [] then []
    else RoleGrants(perms, roles[..|roles| - 1]) + GrantsOf(perms, roles[|roles| - 1].id)
  }

  /** The cells the merge loop visits: every grant with the lower-cased name
      of its service; NotFound when a grant's service is missing. */
  function Resolve(grants: seq<Permission>, services: seq<Service>): Result<seq<Cell>>
  {
    if grants == [] then Ok([])
    else
      var init, last := grants[..|grants| - 1], grants[|grants| - 1];
      match Resolve(init, services)
      case Err(e) => Err(e)
      case Ok(cells) =>
        match FindService(services, last.serviceId)
        case Err(e) => Err(e)
        case Ok(svc) => Ok(cells + [Cell(Lower(svc.name), last)])
  }

  /** Resolving succeeds exactly when every grant's service exists, and then
      yields one cell per grant, in order, named after its service. */
  lemma {:induction false} ResolveMeaning(grants: seq<Permission>, services: seq<Service>)
    ensures var r := Resolve(grants, services);
      && (r.Ok? <==> forall i :: 0 <= i < |grants| ==> FindService(services, grants[i].serviceId).Ok?)
      && (r.Ok? ==> |r.value| == |grants|)
      && (r.Ok? ==> forall i :: 0 <= i < |grants| ==>
            r.value[i] == Cell(Lower(FindService(services, grants[i].serviceId).value.name), grants[i]))
    decreases |grants|
  {
    if grants != [] {
      var init := grants[..|grants| - 1];
      ResolveMeaning(init, services);
      assert forall i :: 0 <= i < |init| ==> init[i] == grants[i];
    }
  }

  /** One more grant whose service exists resolves to one more cell. */
  lemma ResolveSnoc(grants: seq<Permission>, services: seq<Service>, i: int, cells: seq<Cell>, svc: Service)
    requires 0 <= i < |grants|
    requires Resolve(grants[..i], services) == Ok(cells)
    requires FindService(services, grants[i].serviceId) == Ok(svc)
    ensures Resolve(grants[..i + 1], services) == Ok(cells + [Cell(Lower(svc.name), grants[i])])
  {
    assert grants[..i + 1][..i] == grants[..i];
  }

  /** One more cell is one more merge. */
  lemma MatrixSnoc(cells: seq<Cell>, c: Cell)
    ensures Matrix(cells + [c]) == Merge(Matrix(cells), c)
  {
    assert (cells + [c])[..|cells|] == cells;
  }

  /** One more role gathers that role's grants after the earlier ones. */
  lemma RoleGrantsSnoc(perms: seq<Permission>, roles: seq<Role>, i: int)
    requires 0 <= i < |roles|
    ensures RoleGrants(perms, roles[..i + 1]) == RoleGrants(perms, roles[..i]) + GrantsOf(perms, roles[i].id)
  {
    assert roles[..i + 1][..i] == roles[..i];
  }

  /** A grant is gathered exactly when it belongs to one of the roles. */
  lemma {:induction false} RoleGrantsHas(perms: seq<Permission>, roles: seq<Role>, p: Permission)
    ensures p in RoleGrants(perms, roles) <==> p in perms && exists r :: r in roles && r.id == p.roleId
    decreases |roles|
  {
    if roles != [] {
      var init, last := roles[..|roles| - 1], roles[|roles| - 1];
      RoleGrantsHas(perms, init, p);
      assert roles == init + [last];
      if p in perms && exists r :: r in roles && r.id == p.roleId {
        var r :| r in roles && r.id == p.roleId;
        if r != last {
          assert r in init;
        }
      }
    }
  }

  /** A cell is visited exactly when its grant is, with its service's name. */
  lemma ResolveHas(grants: seq<Permission>, services: seq<Service>, c: Cell)
    requires Resolve(grants, services).Ok?
    ensures c in Resolve(grants, services).value <==>
      && c.grant in grants
      && FindService(services, c.grant.serviceId).Ok?
      && c.service == Lower(FindService(services, c.grant.serviceId).value.name)
  {
    var cells := Resolve(grants, services).value;
    ResolveMeaning(grants, services);
    if c in cells {
      var i :| 0 <= i < |cells| && cells[i] == c;
      assert c.grant == grants[i];
    }
    if c.grant in grants {
      var i :| 0 <= i < |grants| && grants[i] == c.grant;
      if c.service == Lower(FindService(services, c.grant.serviceId).value.name) {
        assert cells[i] == c;
      }
    }
  }

  /** The order in which the user's roles are visited does not matter: the
      same roles in any order, or repeated, give the same outcome and the
      same matrix. */
  lemma RoleOrderFree(perms: seq<Permission>, services: seq<Service>, roles1: seq<Role>, roles2: seq<Role>)
    requires forall r :: r in roles1 <==> r in roles2
    ensures Resolve(RoleGrants(perms, roles1), services).Ok? == Resolve(RoleGrants(perms, roles2), services).Ok?
    ensures Resolve(RoleGrants(perms, roles1), services).Ok? ==>
      Matrix(Resolve(RoleGrants(perms, roles1), services).value) ==
      Matrix(Resolve(RoleGrants(perms, roles2), services).value)
  {
    var g1, g2 := RoleGrants(perms, roles1), RoleGrants(perms, roles2);
    forall p ensures p in g1 <==> p in g2 {
      RoleGrantsHas(perms, roles1, p);
      RoleGrantsHas(perms, roles2, p);
    }
    var ok := forall p :: p in g1 ==> FindService(services, p.serviceId).Ok?;
    ResolveMeaning(g1, services);
    ResolveMeaning(g2, services);
    assert Resolve(g1, services).Ok? == ok by {
      if ok {
        forall i | 0 <= i < |g1| ensures FindService(services, g1[i].serviceId).Ok? {
          assert g1[i] in g1;
        }
      }
    }
    assert Resolve(g2, services).Ok? == ok by {
      if ok {
        forall i | 0 <= i < |g2| ensures FindService(services, g2[i].serviceId).Ok? {
          assert g2[i] in g2;
        }
      }
    }
    if ok {
      forall c ensures c in Resolve(g1, services).value <==> c in Resolve(g2, services).value {
        ResolveHas(g1, services, c);
        ResolveHas(g2, services, c);
      }
      MatrixSameCells(Resolve(g1, services).value, Resolve(g2, services).value);
    }
  }

  /** A user with no roles, or whose roles own no stored grant, gathers no
      grant, resolves without error and gets the empty matrix. */
  lemma NoGrantsNoKeys(perms: seq<Permission>, services: seq<Service>, roles: seq<Role>)
    requires forall r, p :: r in roles && p in perms ==> p.roleId != r.id
    ensures RoleGrants(perms, roles) == []
    ensures Resolve(RoleGrants(perms, roles), services) == Ok([])
    ensures Matrix(Resolve(RoleGrants(perms, roles), services).value) == map[]
  {
    var grants := RoleGrants(perms, roles);
    if grants != [] {
      assert grants[0] in grants;
      RoleGrantsHas(perms, roles, grants[0]);
      assert false;
    }
  }

  /** The grants of a role after one more grant is inserted. */
  lemma {:induction false} GrantsOfAppend(perms: seq<Permission>, p: Permission, roleId: int)
    ensures GrantsOf(perms + [p], roleId) == GrantsOf(perms, roleId) + (if p.roleId == roleId then [p] else [])
    decreases |perms|
  {
    if perms == [] {
      assert [] + [p] == [p];
    } else {
      assert (perms + [p])[1..] == perms[1..] + [p];
      GrantsOfAppend(perms[1..], p, roleId);
    }
  }

  lemma ExampleGrants(p1: Permission, p2: Permission, p3: Permission)
    requires p1.roleId == 1 && p2.roleId == 2 && p3.roleId == 2
    ensures GrantsOf([p1, p2, p3], 1) == [p1]
    ensures GrantsOf([p1, p2, p3], 2) == [p2, p3]
  {
    assert [p1, p2, p3][1..] == [p2, p3] && [p2, p3][1..] == [p3] && [p3][1..] == [];
    assert GrantsOf([p3], 1) == [] && GrantsOf([p3], 2) == [p3];
    assert GrantsOf([p2, p3], 1) == [] && GrantsOf([p2, p3], 2) == [p2, p3];
  }

  /** A name lower-cases to `low` when it does so character by character. */
  lemma LowerTo(s: string, low: string)
    requires |s| == |low|
    requires forall i :: 0 <= i < |s| ==> LowerChar(s[i]) == low[i]
    ensures Lower(s) == low
  {
    LowerChars(s);
  }

  lemma ExampleNames(b: string, st: string)
    requires b == "Billing" && st == "storage"
    ensures Lower(b) == "billing" && Lower(st) == "storage"
  {
    LowerTo(b, "billing");
    LowerTo(st, "storage");
  }

  /** The grants of the worked example below, role by role. */
  lemma ExampleRoleGrants()
    ensures RoleGrants(ExamplePerms(), [Role(1, "R1"), Role(2, "R2")]) == ExamplePerms()
  {
    var perms := ExamplePerms();
    var roles := [Role(1, "R1"), Role(2, "R2")];
    ExampleGrants(perms[0], perms[1], perms[2]);
    assert perms == [perms[0], perms[1], perms[2]];
    assert roles[..1] == [Role(1, "R1")];
    assert RoleGrants(perms, roles[..1]) == [perms[0]];
  }

  /** The grants of the worked example below, resolved to cells. */
  lemma ExampleCells(b: string, st: string, grants: seq<Permission>)
    requires |grants| == 3
    requires grants[0].serviceId == 10 && grants[1].serviceId == 10 && grants[2].serviceId == 11
    ensures Resolve(grants, [Service(10, b), Service(11, st)]) ==
      Ok([Cell(Lower(b), grants[0]), Cell(Lower(b), grants[1]), Cell(Lower(st), grants[2])])
  {
    var services := [Service(10, b), Service(11, st)];
    assert services[1..] == [Service(11, st)];
    assert FindService(services, 11) == Ok(Service(11, st));
    assert grants[..0] == [];
    var cells1 := [] + [Cell(Lower(b), grants[0])];
    var cells2 := cells1 + [Cell(Lower(b), grants[1])];
    ResolveSnoc(grants, services, 0, [], services[0]);
    ResolveSnoc(grants, services, 1, cells1, services[0]);
    ResolveSnoc(grants, services, 2, cells2, services[1]);
    assert grants[..3] == grants;
    Three(Cell(Lower(b), grants[0]), Cell(Lower(b), grants[1]), Cell(Lower(st), grants[2]));
  }

  lemma Three(c1: Cell, c2: Cell, c3: Cell)
    ensures [] + [c1] + [c2] + [c3] == [c1, c2, c3]
  {
  }

  lemma ExampleKeys()
    ensures Key("billing", Read) == "billing.read"
    ensures Key("billing", Write) == "billing.write"
    ensures Key("billing", Manage) == "billing.manage"
    ensures Key("storage", Read) == "storage.read"
    ensures Key("storage", Write) == "storage.write"
    ensures Key("storage", Manage) == "storage.manage"
  {
  }

  /** The merges of the worked example below. */
  lemma ExampleMerges(c1: Cell, c2: Cell, c3: Cell)
    requires c1 == Cell("billing", Permission(1, 1, 10, true, false, false))
    requires c2 == Cell("billing", Permission(2, 2, 10, false, true, false))
    requires c3 == Cell("storage", Permission(3, 2, 11, false, false, true))
    ensures Matrix([c1, c2, c3]) ==
      map["billing.read" := true, "billing.write" := true, "billing.manage" := false,
          "storage.read" := false, "storage.write" := false, "storage.manage" := true]
  {
    ExampleKeys();
    FirstMerge(c1);
    var m1 := Merge(map[], c1);
    assert m1 == map["billing.read" := true, "billing.write" := false, "billing.manage" := false];
    var m2 := Merge(m1, c2);
    assert m2 == map["billing.read" := true, "billing.write" := true, "billing.manage" := false];
    MatrixSnoc([], c1);
    MatrixSnoc([c1], c2);
    MatrixSnoc([c1, c2], c3);
    assert [] + [c1] == [c1];
    assert [c1] + [c2] == [c1, c2];
    assert [c1, c2] + [c3] == [c1, c2, c3];
  }

  function ExampleServices(): seq<Service>
  {
    [Service(10, "Billing"), Service(11, "storage")]
  }

  function ExamplePerms(): seq<Permission>
  {
    [Permission(1, 1, 10, true, false, false), Permission(2, 2, 10, false, true, false),
     Permission(3, 2, 11, false, false, true)]
  }

  /** The worked example: role 1 grants read on Billing; role 2 grants write
      on Billing and manage on storage. The user holding both roles may read
      and write billing and manage storage, and every key of a visited
      service is present, the others as false. */
  lemma MatrixExample()
    ensures var cells := Resolve(RoleGrants(ExamplePerms(), [Role(1, "R1"), Role(2, "R2")]), ExampleServices());
      && cells.Ok?
      && Matrix(cells.value) ==
           map["billing.read" := true, "billing.write" := true, "billing.manage" := false,
               "storage.read" := false, "storage.write" := false, "storage.manage" := true]
  {
    ExampleRoleGrants();
    var perms := ExamplePerms();
    var b, st := ExampleServices()[0].name, ExampleServices()[1].name;
    assert ExampleServices() == [Service(10, b), Service(11, st)];
    ExampleCells(b, st, perms);
    ExampleNames(b, st);
    ExampleMerges(Cell("billing", perms[0]), Cell("billing", perms[1]), Cell("storage", perms[2]));
  }

  /** Roles taken from the roles table are found there by their ids. */
  lemma StoredRolesFound(roles: seq<Role>, stored: seq<Role>)
    requires forall x :: x in roles ==> x in stored
    ensures forall i :: 0 <= i < |roles| ==> FindRole(stored, roles[i].id).Ok?
  {
    forall i | 0 <= i < |roles|
      ensures FindRole(stored, roles[i].id).Ok?
    {
      assert roles[i] in roles;
    }
  }

  // ---- the service ----

  /** The grants GetUserPermissions gathers for user `u`. */
  function UserGrants(db: Db, u: int): seq<Permission>
    reads db
  {
    RoleGrants(db.permissions, RolesOf(db.userRoles, db.roles, u))
  }

  class PermService {
    const db: Db

    constructor (db: Db)
      ensures this.db == db
    {
      this.db := db;
    }

    /** GetServices: one entry per stored service, in store order. */
    method GetServices() returns (r: Result<seq<ServiceInfo>>)
      ensures r.Err? ==> r.error == StorageError
      ensures r.Ok? ==> |r.value| == |db.services|
      ensures r.Ok? ==> forall i :: 0 <= i < |db.services| ==>
        r.value[i].id == db.services[i].id && r.value[i].name == db.services[i].name
    {
      var services := db.SelectServices();
      if services.Err? {
        return Err(services.error);
      }
      var resSlice: seq<ServiceInfo> := [];
      for i := 0 to |services.value|
        invariant |resSlice| == i
        invariant forall j :: 0 <= j < i ==> resSlice[j] == ServiceInfo(db.services[j].id, db.services[j].name)
      {
        var service := services.value[i];
        resSlice := resSlice + [ServiceInfo(service.id, service.name)];
      }
      return Ok(resSlice);
    }

    /** CreateServicePermissions: a bare insert of one grant, with no check
        for an existing grant of the same role on the same service. */
    method CreateServicePermissions(roleId: int, serviceId: int, canRead: bool, canWrite: bool, canManage: bool)
      returns (r: Result<int>)
      modifies db`permissions, db`nextPermissionId, db`log
      ensures r.Ok? ==> r.value == StatusCreated
      ensures r.Ok? ==>
        db.permissions == old(db.permissions) + [Permission(old(db.nextPermissionId), roleId, serviceId, canRead, canWrite, canManage)]
      ensures r.Ok? ==> db.nextPermissionId == old(db.nextPermissionId) + 1
      ensures r.Ok? ==>
        db.log == old(db.log) + [InsertedPermission(Permission(old(db.nextPermissionId), roleId, serviceId, canRead, canWrite, canManage))]
      ensures r.Err? ==> db.permissions == old(db.permissions) && db.log == old(db.log)
      ensures r.Err? ==> db.nextPermissionId == old(db.nextPermissionId)
      ensures r.Err? ==> r.error == StorageError
    {
      var inserted := db.InsertPermission(roleId, serviceId, canRead, canWrite, canManage);
      if inserted.Err? {
        return Err(inserted.error);
      }
      return Ok(StatusCreated);
    }

    /** GetServicePermissions: the service's grants, each joined with the
        service and with its role; a missing service or role is an error. */
    method GetServicePermissions(serviceId: int) returns (r: Result<seq<PermissionInfo>>)
      ensures FindService(db.services, serviceId).Err? ==> r.Err?
      ensures r.Ok? ==> FindService(db.services, serviceId).Ok?
      ensures r.Err? ==>
        r.error == StorageError || FindService(db.services, serviceId).Err? ||
        exists p :: p in GrantsOn(db.permissions, serviceId) && FindRole(db.roles, p.roleId).Err?
      ensures r.Ok? ==> |r.value| == |GrantsOn(db.permissions, serviceId)|
      ensures r.Ok? ==> forall i :: 0 <= i < |r.value| ==>
        var p := GrantsOn(db.permissions, serviceId)[i];
        && p in db.permissions && p.serviceId == serviceId
        && FindRole(db.roles, p.roleId).Ok?
        && r.value[i].id == p.id
        && r.value[i].service == ServiceInfo(serviceId, FindService(db.services, serviceId).value.name)
        && r.value[i].role == RoleInfo(p.roleId, FindRole(db.roles, p.roleId).value.name)
        && r.value[i].canRead == p.read && r.value[i].canWrite == p.write && r.value[i].canManage == p.manage
    {
      var found := db.SelectServiceWithPermissions(serviceId);
      if found.Err? {
        return Err(found.error);
      }
      var service, perms := found.value.0, found.value.1;
      var resSlice := new PermissionInfo[|perms|];
      for index := 0 to |perms|
        invariant forall i :: 0 <= i < index ==>
          && FindRole(db.roles, perms[i].roleId).Ok?
          && resSlice[i] == PermissionInfo(perms[i].id, ServiceInfo(service.id, service.name),
               RoleInfo(perms[i].roleId, FindRole(db.roles, perms[i].roleId).value.name),
               perms[i].read, perms[i].write, perms[i].manage)
      {
        var permission := perms[index];
        var role := db.SelectRole(permission.roleId);
        if role.Err? {
          assert perms[index] in perms;
          return Err(role.error);
        }
        resSlice[index] := PermissionInfo(permission.id, ServiceInfo(service.id, service.name),
          RoleInfo(role.value.id, role.value.name), permission.read, permission.write, permission.manage);
      }
      return Ok(resSlice[..]);
    }

    /** GetUserPermissions: the or of the flags of every grant of every role
        of the user, keyed by lower-cased service name and action. A missing
        user, or a grant whose service is missing, is an error. */
    method GetUserPermissions(userId: int) returns (r: Result<map<string, bool>>)
      ensures FindUser(db.users, userId).Err? ==> r.Err?
      ensures Resolve(UserGrants(db, userId), db.services).Err? ==> r.Err?
      ensures r.Ok? ==> FindUser(db.users, userId).Ok?
      ensures r.Ok? ==> Resolve(UserGrants(db, userId), db.services).Ok?
      ensures r.Ok? ==> r.value == Matrix(Resolve(UserGrants(db, userId), db.services).value)
      ensures r.Err? ==>
        r.error == StorageError || FindUser(db.users, userId).Err? ||
        Resolve(UserGrants(db, userId), db.services).Err?
    {
      var user := db.SelectUserWithRoles(userId);
      if user.Err? {
        return Err(user.error);
      }
      StoredRolesFound(user.value, db.roles);
      var permSlice := GatherGrants(user.value);
      if permSlice.Err? {
        return Err(permSlice.error);
      }
      r := MergeGrants(permSlice.value);
    }

    /** The role loop of GetUserPermissions: the grants of each role in turn. */
    method GatherGrants(roles: seq<Role>) returns (r: Result<seq<Permission>>)
      ensures r.Ok? ==> r.value == RoleGrants(db.permissions, roles)
      ensures r.Ok? ==> forall i :: 0 <= i < |roles| ==> FindRole(db.roles, roles[i].id).Ok?
      ensures r.Err? ==> r.error == StorageError || exists i :: 0 <= i < |roles| && FindRole(db.roles, roles[i].id).Err?
    {
      var permSlice: seq<Permission> := [];
      for i := 0 to |roles|
        invariant permSlice == RoleGrants(db.permissions, roles[..i])
        invariant forall j :: 0 <= j < i ==> FindRole(db.roles, roles[j].id).Ok?
      {
        var role := db.SelectRoleWithPermissions(roles[i].id);
        if role.Err? {
          if role.error != StorageError {
            assert FindRole(db.roles, roles[i].id).Err?;
          }
          return Err(role.error);
        }
        RoleGrantsSnoc(db.permissions, roles, i);
        permSlice := permSlice + role.value;
      }
      assert roles[..|roles|] == roles;
      return Ok(permSlice);
    }

    /** The merge loop of GetUserPermissions. The first grant writes its
        three keys outright; every later one writes a key only where it does
        not already read true. */
    method MergeGrants(permSlice: seq<Permission>) returns (r: Result<map<string, bool>>)
      ensures Resolve(permSlice, db.services).Err? ==> r.Err?
      ensures r.Ok? ==> Resolve(permSlice, db.services).Ok?
      ensures r.Ok? ==> r.value == Matrix(Resolve(permSlice, db.services).value)
      ensures r.Err? ==> r.error == StorageError || Resolve(permSlice, db.services).Err?
    {
      var permMap: map<string, bool> := map[];
      ghost var cells: seq<Cell> := [];
      for index := 0 to |permSlice|
        invariant Resolve(permSlice[..index], db.services) == Ok(cells)
        invariant permMap == Matrix(cells)
      {
        var perm := permSlice[index];
        var service := db.SelectService(perm.serviceId);
        if service.Err? {
          ResolveMeaning(permSlice, db.services);
          return Err(service.error);
        }
        var svc := Lower(service.value.name);
        var idxRead, idxWrite, idxManage := Key(svc, Read), Key(svc, Write), Key(svc, Manage);
        if index > 0 {
          if Lookup(permMap, idxRead) != true {
            permMap := permMap[idxRead := perm.read];
          }
          if Lookup(permMap, idxWrite) != true {
            permMap := permMap[idxWrite := perm.write];
          }
          if Lookup(permMap, idxManage) != true {
            permMap := permMap[idxManage := perm.manage];
          }
        } else {
          FirstMerge(Cell(svc, perm));
          permMap := permMap[idxRead := perm.read];
          permMap := permMap[idxWrite := perm.write];
          permMap := permMap[idxManage := perm.manage];
        }
        ResolveSnoc(permSlice, db.services, index, cells, service.value);
        MatrixSnoc(cells, Cell(svc, perm));
        cells := cells + [Cell(svc, perm)];
      }
      assert permSlice[..|permSlice|] == permSlice;
      return Ok(permMap);
    }
  }
}
