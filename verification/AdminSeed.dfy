/**
Seeding a tenant's admin role: an upsert of the role, then for every listed resource and action an
upsert of the permission and an insert of its link to the role, and finally a binding of the role to
the tenant's admin user. The program runs this again and again; it must change nothing the second time.
*/
module AdminSeed {
  import opened Options
  import opened Text

  type Id(==, !new) = string

  datatype Role = Role(tenant: Id, name: string, updatedAt: int)
  datatype Permission = Permission(tenant: Id, resource: string, action: string, description: string)
  datatype Binding = Binding(tenant: Id, user: Id, role: Id, scopeType: Option<string>, scopeId: Option<Id>)
  datatype Pair = Pair(resource: string, action: string)

  type Roles = map<Id, Role>
  type Permissions = map<Id, Permission>
  type Links = set<(Id, Id)>

  // ---------------------------------------------------------------- the seeded list

  function Crud(resource: string): seq<Pair> {
    [Pair(resource, "create"), Pair(resource, "read"), Pair(resource, "update"), Pair(resource, "delete"),
     Pair(resource, "manage")]
  }

  const CRUD_RESOURCES := [
    "users", "tenants", "projects", "roles", "permissions", "scopes", "role-bindings", "policy", "groups",
    "sync", "sync-configs", "oidc", "endusers", "clients", "user-endusers", "user-rbac-roles",
    "user-rbac-permissions", "user-rbac-scopes", "user-permissions", "user-groups", "user-clients", "user-projects"
  ]

  function CrudAll(resources: seq<string>): seq<Pair> {
    if resources == [] then [] else CrudAll(resources[..|resources| - 1]) + Crud(resources[|resources| - 1])
  }

  const MORE_PERMISSIONS := [
    Pair("scopes", "create"), Pair("scopes", "read"), Pair("scopes", "update"), Pair("scopes", "delete"),
    Pair("scopes", "manage_permissions"), Pair("health", "read"),
    Pair("external-service", "create"), Pair("external-service", "read"), Pair("external-service", "update"),
    Pair("external-service", "delete"), Pair("external-service", "credentials"), Pair("external-service", "manage")
  ]

  /** The list as the program writes it, including the scopes entries it names twice. */
  function AdminPermissions(): seq<Pair> {
    [Pair("admin", "access")] + CrudAll(CRUD_RESOURCES) + MORE_PERMISSIONS
  }

  lemma {:induction false} CrudAllAre(resources: seq<string>, p: Pair)
    ensures |CrudAll(resources)| == 5 * |resources|
    ensures p in CrudAll(resources) <==>
            p.resource in resources && p.action in {"create", "read", "update", "delete", "manage"}
  {
    if resources != [] {
      var n := |resources| - 1;
      CrudAllAre(resources[..n], p);
      assert p.resource in resources <==> p.resource in resources[..n] || p.resource == resources[n];
      CrudAre(resources[n], p);
    }
  }

  lemma CrudAre(resource: string, p: Pair)
    ensures p in Crud(resource) <==>
            p.resource == resource && p.action in {"create", "read", "update", "delete", "manage"}
  {
    var c := Crud(resource);
    assert c[0] == Pair(resource, "create") && c[1] == Pair(resource, "read") && c[2] == Pair(resource, "update")
           && c[3] == Pair(resource, "delete") && c[4] == Pair(resource, "manage");
  }

  /** What the list grants, whatever its order and repetitions. */
  lemma AdminPermissionsAre(p: Pair)
    ensures |CRUD_RESOURCES| == 22 && |AdminPermissions()| == 123
    ensures p in AdminPermissions() <==>
            || (p.resource in CRUD_RESOURCES && p.action in {"create", "read", "update", "delete", "manage"})
            || (p.resource == "admin" && p.action == "access")
            || (p.resource == "scopes" && p.action == "manage_permissions")
            || (p.resource == "health" && p.action == "read")
            || (p.resource == "external-service"
                && p.action in {"create", "read", "update", "delete", "credentials", "manage"})
  {
    CrudAllAre(CRUD_RESOURCES, p);
    MorePermissionsAre(p);
    assert CRUD_RESOURCES[5] == "scopes";
  }

  lemma MorePermissionsAre(p: Pair)
    ensures |MORE_PERMISSIONS| == 12
    ensures p in MORE_PERMISSIONS <==>
            || (p.resource == "scopes" && p.action in {"create", "read", "update", "delete", "manage_permissions"})
            || (p.resource == "health" && p.action == "read")
            || (p.resource == "external-service"
                && p.action in {"create", "read", "update", "delete", "credentials", "manage"})
  {
    var scopes, services := MORE_PERMISSIONS[..6], MORE_PERMISSIONS[6..];
    assert MORE_PERMISSIONS == scopes + services;
    ScopePermissionsAre(p);
    ServicePermissionsAre(p);
  }

  lemma ScopePermissionsAre(p: Pair)
    ensures p in MORE_PERMISSIONS[..6] <==>
            || (p.resource == "scopes" && p.action in {"create", "read", "update", "delete", "manage_permissions"})
            || (p.resource == "health" && p.action == "read")
  {
    var m := MORE_PERMISSIONS[..6];
    assert m[0] == Pair("scopes", "create") && m[1] == Pair("scopes", "read") && m[2] == Pair("scopes", "update")
           && m[3] == Pair("scopes", "delete") && m[4] == Pair("scopes", "manage_permissions")
           && m[5] == Pair("health", "read");
  }

  lemma ServicePermissionsAre(p: Pair)
    ensures p in MORE_PERMISSIONS[6..] <==>
            p.resource == "external-service"
            && p.action in {"create", "read", "update", "delete", "credentials", "manage"}
  {
    var m, service := MORE_PERMISSIONS[6..], "external-service";
    assert m[0] == Pair(service, "create") && m[1] == Pair(service, "read") && m[2] == Pair(service, "update")
           && m[3] == Pair(service, "delete") && m[4] == Pair(service, "credentials")
           && m[5] == Pair(service, "manage");
  }

  // ---------------------------------------------------------------- upserts

  function SeededRow(tenant: Id, p: Pair): Permission {
    Permission(tenant, p.resource, p.action, p.resource + " " + p.action)
  }

  predicate SameKey(a: Permission, b: Permission) {
    a.tenant == b.tenant && a.resource == b.resource && a.action == b.action
  }

  /** The unique index on tenant, resource and action. */
  ghost predicate UniquePermissions(perms: Permissions) {
    forall a, b :: a in perms && b in perms && SameKey(perms[a], perms[b]) ==> a == b
  }

  predicate SameRole(a: Role, b: Role) {
    a.tenant == b.tenant && a.name == b.name
  }

  /** The unique index on tenant and name. */
  ghost predicate UniqueRoles(roles: Roles) {
    forall a, b :: a in roles && b in roles && SameRole(roles[a], roles[b]) ==> a == b
  }

  ghost predicate IsUpserted(perms: Permissions, p: Permission, newId: Id, id: Id) {
    if exists a :: a in perms && SameKey(perms[a], p) then id in perms && SameKey(perms[id], p) else id == newId
  }

  /** INSERT ... ON CONFLICT DO UPDATE SET description ... RETURNING id. */
  method UpsertPermission(perms: Permissions, p: Permission, newId: Id) returns (perms': Permissions, id: Id)
    ensures IsUpserted(perms, p, newId, id)
    ensures perms' == perms[id := p]
  {
    var existing := set a | a in perms && SameKey(perms[a], p);
    if existing != {} {
      id :| id in existing;
    } else {
      assert forall a :: a in perms && SameKey(perms[a], p) ==> a in existing;
      id := newId;
    }
    perms' := perms[id := p];
  }

  /** The admin role of a tenant, inserted or with its time refreshed. */
  method UpsertAdminRole(roles: Roles, tenant: Id, newId: Id, now: int) returns (roles': Roles, id: Id)
    requires UniqueRoles(roles) && newId !in roles
    ensures UniqueRoles(roles') && IsAdminRole(roles', tenant, id)
    ensures roles' == roles[id := Role(tenant, "admin", now)]
    ensures (exists a :: IsAdminRole(roles, tenant, a)) ==> IsAdminRole(roles, tenant, id)
    ensures (forall a :: !IsAdminRole(roles, tenant, a)) ==> id == newId
  {
    var existing := set a | a in roles && roles[a].tenant == tenant && roles[a].name == "admin";
    if existing != {} {
      id :| id in existing;
      assert IsAdminRole(roles, tenant, id);
    } else {
      assert forall a :: IsAdminRole(roles, tenant, a) ==> a in existing;
      assert forall a :: a in roles ==> !IsAdminRole(roles, tenant, a);
      id := newId;
    }
    roles' := roles[id := Role(tenant, "admin", now)];
    forall a, b | a in roles' && b in roles' && SameRole(roles'[a], roles'[b]) ensures a == b {
      assert IsAdminRole(roles', tenant, a) && a in roles && a != id ==> IsAdminRole(roles, tenant, a);
      assert IsAdminRole(roles', tenant, b) && b in roles && b != id ==> IsAdminRole(roles, tenant, b);
    }
  }

  predicate IsAdminRole(roles: Roles, tenant: Id, id: Id) {
    id in roles && roles[id].tenant == tenant && roles[id].name == "admin"
  }

  // ---------------------------------------------------------------- what seeding means

  /** The pair has its permission row, as seeded, and the row is linked to the role. */
  ghost predicate Granted(perms: Permissions, links: Links, role: Id, tenant: Id, p: Pair) {
    exists id :: id in perms && perms[id] == SeededRow(tenant, p) && (role, id) in links
  }

  ghost predicate AllGranted(perms: Permissions, links: Links, role: Id, tenant: Id, pairs: seq<Pair>) {
    forall i :: 0 <= i < |pairs| ==> Granted(perms, links, role, tenant, pairs[i])
  }

  ghost predicate Listed(pairs: seq<Pair>, p: Permission, tenant: Id) {
    p.tenant == tenant && Pair(p.resource, p.action) in pairs
  }

  /** What a seeding keeps: rows, ids and links; only listed rows of the tenant are rewritten or added. */
  ghost predicate Extends(perms: Permissions, links: Links, perms': Permissions, links': Links,
                          role: Id, tenant: Id, pairs: seq<Pair>) {
    && perms.Keys <= perms'.Keys && links <= links'
    && (forall id :: id in perms ==> SameKey(perms'[id], perms[id]))
    && (forall id :: id in perms && !Listed(pairs, perms[id], tenant) ==> perms'[id] == perms[id])
    && (forall id :: id in perms' && id !in perms ==> Listed(pairs, perms'[id], tenant))
    && (forall l :: l in links' && l !in links ==> l.0 == role && l.1 in perms' && Listed(pairs, perms'[l.1], tenant))
  }

  /** The loop over the permission list. */
  method SeedPermissions(perms: Permissions, links: Links, role: Id, tenant: Id, pairs: seq<Pair>, newIds: seq<Id>)
    returns (perms': Permissions, links': Links)
    requires UniquePermissions(perms) && |newIds| == |pairs|
    requires forall i :: 0 <= i < |newIds| ==> newIds[i] !in perms
    requires forall i, j :: 0 <= i < j < |newIds| ==> newIds[i] != newIds[j]
    ensures UniquePermissions(perms')
    ensures AllGranted(perms', links', role, tenant, pairs)
    ensures Extends(perms, links, perms', links', role, tenant, pairs)
    ensures AllGranted(perms, links, role, tenant, pairs) ==> perms' == perms && links' == links
  {
    perms', links' := perms, links;
    for i := 0 to |pairs|
      invariant UniquePermissions(perms')
      invariant AllGranted(perms', links', role, tenant, pairs[..i])
      invariant Extends(perms, links, perms', links', role, tenant, pairs[..i])
      invariant forall k :: i <= k < |newIds| ==> newIds[k] !in perms'
      invariant AllGranted(perms, links, role, tenant, pairs) ==> perms' == perms && links' == links
    {
      ghost var before, linked := perms', links';
      var row := SeededRow(tenant, pairs[i]);
      var id: Id;
      perms', id := UpsertPermission(perms', row, newIds[i]);
      links' := links' + {(role, id)};
      SeedOne(perms, links, before, linked, role, tenant, pairs, i, newIds[i], id);
    }
    assert pairs[..|pairs|] == pairs;
  }

  lemma UpsertKeepsUnique(before: Permissions, p: Permission, newId: Id, id: Id)
    requires UniquePermissions(before) && newId !in before && IsUpserted(before, p, newId, id)
    ensures UniquePermissions(before[id := p])
  {}

  lemma UpsertGrants(before: Permissions, linked: Links, p: Permission, newId: Id, id: Id,
                     role: Id, tenant: Id, q: Pair)
    requires UniquePermissions(before) && newId !in before && IsUpserted(before, p, newId, id)
    requires p != SeededRow(tenant, q) ==>
               Granted(before, linked, role, tenant, q) && exists r :: p == SeededRow(tenant, r)
    ensures Granted(before[id := p], linked + {(role, id)}, role, tenant, q)
  {
    if p == SeededRow(tenant, q) {
      assert id in before[id := p];
    } else {
      var a :| a in before && before[a] == SeededRow(tenant, q) && (role, a) in linked;
      assert a in before[id := p] && before[id := p][a] == SeededRow(tenant, q);
    }
  }

  lemma UpsertExtends(perms: Permissions, links: Links, before: Permissions, linked: Links, role: Id, tenant: Id,
                      pairs: seq<Pair>, q: Pair, newId: Id, id: Id)
    requires newId !in before && IsUpserted(before, SeededRow(tenant, q), newId, id)
    requires Extends(perms, links, before, linked, role, tenant, pairs)
    ensures Extends(perms, links, before[id := SeededRow(tenant, q)], linked + {(role, id)}, role, tenant, pairs + [q])
  {}

  lemma UpsertAgain(before: Permissions, linked: Links, role: Id, tenant: Id, q: Pair, newId: Id, id: Id)
    requires UniquePermissions(before) && IsUpserted(before, SeededRow(tenant, q), newId, id)
    requires Granted(before, linked, role, tenant, q)
    ensures before[id := SeededRow(tenant, q)] == before && linked + {(role, id)} == linked
  {
    var a :| a in before && before[a] == SeededRow(tenant, q) && (role, a) in linked;
    assert SameKey(before[a], SeededRow(tenant, q));
    assert a == id;
  }

  /** One round of the loop keeps its invariant. */
  lemma SeedOne(perms: Permissions, links: Links, before: Permissions, linked: Links, role: Id, tenant: Id,
                pairs: seq<Pair>, i: nat, newId: Id, id: Id)
    requires i < |pairs| && UniquePermissions(before) && newId !in before
    requires IsUpserted(before, SeededRow(tenant, pairs[i]), newId, id)
    requires AllGranted(before, linked, role, tenant, pairs[..i])
    requires Extends(perms, links, before, linked, role, tenant, pairs[..i])
    ensures var perms', links' := before[id := SeededRow(tenant, pairs[i])], linked + {(role, id)};
            && UniquePermissions(perms')
            && AllGranted(perms', links', role, tenant, pairs[..i + 1])
            && Extends(perms, links, perms', links', role, tenant, pairs[..i + 1])
            && (AllGranted(before, linked, role, tenant, pairs) ==> perms' == before && links' == linked)
  {
    var row := SeededRow(tenant, pairs[i]);
    UpsertKeepsUnique(before, row, newId, id);
    var perms', links' := before[id := row], linked + {(role, id)};
    var done := pairs[..i + 1];
    forall k | 0 <= k < |done| ensures Granted(perms', links', role, tenant, done[k]) {
      if k < i {
        assert Granted(before, linked, role, tenant, pairs[..i][k]);
      }
      UpsertGrants(before, linked, row, newId, id, role, tenant, pairs[k]);
    }
    UpsertExtends(perms, links, before, linked, role, tenant, pairs[..i], pairs[i], newId, id);
    assert pairs[..i] + [pairs[i]] == pairs[..i + 1];
    if AllGranted(before, linked, role, tenant, pairs) {
      UpsertAgain(before, linked, role, tenant, pairs[i], newId, id);
    }
  }

  // ---------------------------------------------------------------- the repositories

  /** Identifiers generated for one call; each insert uses its own. */
  datatype NewIds = NewIds(role: Id, permissions: seq<Id>, binding: Id)

  ghost predicate Usable(ids: NewIds, roles: Roles, perms: Permissions, bindings: map<Id, Binding>) {
    && ids.role !in roles && ids.binding !in bindings
    && |ids.permissions| == |AdminPermissions()|
    && (forall i :: 0 <= i < |ids.permissions| ==> ids.permissions[i] !in perms)
    && (forall i, j :: 0 <= i < j < |ids.permissions| ==> ids.permissions[i] != ids.permissions[j])
  }

  ghost predicate Seeded(roles: Roles, perms: Permissions, links: Links, tenant: Id, role: Id) {
    IsAdminRole(roles, tenant, role) && AllGranted(perms, links, role, tenant, AdminPermissions())
  }

  predicate Binds(b: Binding, tenant: Id, user: Id, role: Id) {
    b == Binding(tenant, user, role, None, None)
  }

  ghost predicate Bound(bindings: map<Id, Binding>, tenant: Id, user: Id, role: Id) {
    exists id :: id in bindings && Binds(bindings[id], tenant, user, role)
  }

  // ---------------------------------------------------------------- the tenant's admin user

  datatype User = User(tenant: Id, email: string, active: bool, createdAt: int)

  /** The users and the addresses of the tenants, as they are when a run looks. */
  datatype Directory = Directory(users: map<Id, User>, mails: map<Id, string>)

  /** The user's address is the one the tenant was registered with, letter case aside. */
  predicate HasTenantMail(dir: Directory, tenant: Id, u: Id) {
    u in dir.users && dir.users[u].tenant == tenant && tenant in dir.mails
    && ToLower(dir.users[u].email) == ToLower(dir.mails[tenant])
  }

  predicate IsActiveUser(dir: Directory, tenant: Id, u: Id) {
    u in dir.users && dir.users[u].tenant == tenant && dir.users[u].active
  }

  /** Whom the lookup may return: a user with the tenant's address, else an oldest active user. */
  ghost predicate Eligible(dir: Directory, tenant: Id, u: Id) {
    if exists v :: HasTenantMail(dir, tenant, v) then HasTenantMail(dir, tenant, u)
    else IsActiveUser(dir, tenant, u)
         && forall v :: IsActiveUser(dir, tenant, v) ==> dir.users[u].createdAt <= dir.users[v].createdAt
  }

  /** The two queries, the second only when the first finds nothing. */
  method FindAdminUser(dir: Directory, tenant: Id) returns (found: Option<Id>)
    ensures found.Some? ==> Eligible(dir, tenant, found.value)
    ensures found.Some? ==> found.value in dir.users && dir.users[found.value].tenant == tenant
    ensures found.Some? && tenant in dir.mails
            && ToLower(dir.users[found.value].email) != ToLower(dir.mails[tenant]) ==>
      forall u :: u in dir.users && dir.users[u].tenant == tenant ==>
        ToLower(dir.users[u].email) != ToLower(dir.mails[tenant])
    ensures found.Some? && !dir.users[found.value].active ==>
      tenant in dir.mails && ToLower(dir.users[found.value].email) == ToLower(dir.mails[tenant])
    ensures found.None? ==> forall u :: u in dir.users && dir.users[u].tenant == tenant ==> !dir.users[u].active
    ensures found.None? ==> forall u :: !Eligible(dir, tenant, u)
  {
    var owners := set u | u in dir.users && HasTenantMail(dir, tenant, u);
    assert forall u :: HasTenantMail(dir, tenant, u) ==> u in owners;
    if owners != {} {
      var u :| u in owners;
      return Some(u);
    }
    var todo := set u | u in dir.users && IsActiveUser(dir, tenant, u);
    assert forall u :: IsActiveUser(dir, tenant, u) ==> u in todo;
    if todo == {} {
      forall u | u in dir.users && dir.users[u].tenant == tenant ensures !dir.users[u].active {
        assert !IsActiveUser(dir, tenant, u);
      }
      return None;
    }
    var oldest :| oldest in todo;
    while todo != {}
      invariant IsActiveUser(dir, tenant, oldest)
      invariant forall u :: u in todo ==> u in dir.users
      invariant forall u :: IsActiveUser(dir, tenant, u) && u !in todo ==>
        dir.users[oldest].createdAt <= dir.users[u].createdAt
      decreases todo
    {
      var u :| u in todo;
      if dir.users[u].createdAt < dir.users[oldest].createdAt && IsActiveUser(dir, tenant, u) {
        oldest := u;
      }
      todo := todo - {u};
    }
    found := Some(oldest);
    forall u | u in dir.users && dir.users[u].tenant == tenant && tenant in dir.mails
      ensures ToLower(dir.users[u].email) != ToLower(dir.mails[tenant])
    {
      assert !HasTenantMail(dir, tenant, u);
    }
  }

  class AdminRepository {
    var roles: Roles
    var perms: Permissions
    var links: Links
    var bindings: map<Id, Binding>

    ghost predicate Valid()
      reads this
    {
      UniqueRoles(roles) && UniquePermissions(perms)
    }

    constructor ()
      ensures Valid() && roles == map[] && perms == map[] && links == {} && bindings == map[]
    {
      roles, perms, links, bindings := map[], map[], {}, map[];
    }

    method EnsureAdminRoleAndPermissions(tenant: Id, ids: NewIds, now: int) returns (role: Id)
      requires Valid() && Usable(ids, roles, perms, bindings)
      modifies this
      ensures Valid() && bindings == old(bindings)
      ensures Seeded(roles, perms, links, tenant, role)
      ensures roles == old(roles)[role := Role(tenant, "admin", now)]
      ensures role in old(roles) ==> IsAdminRole(old(roles), tenant, role)
      ensures Extends(old(perms), old(links), perms, links, role, tenant, AdminPermissions())
      ensures forall r :: Seeded(old(roles), old(perms), old(links), tenant, r) ==>
                role == r && perms == old(perms) && links == old(links)
    {
      roles, role := UpsertAdminRole(roles, tenant, ids.role, now);
      perms, links := SeedPermissions(perms, links, role, tenant, AdminPermissions(), ids.permissions);
      forall r | Seeded(old(roles), old(perms), old(links), tenant, r) ensures role == r {
        assert IsAdminRole(old(roles), tenant, r) && IsAdminRole(old(roles), tenant, role);
      }
    }

    /** INSERT ... SELECT ... WHERE NOT EXISTS: a tenant-wide binding, once. */
    method EnsureAdminRoleBinding(user: Id, tenant: Id, role: Id, newId: Id)
      requires newId !in bindings
      modifies this`bindings
      ensures Bound(bindings, tenant, user, role)
      ensures old(Bound(bindings, tenant, user, role)) ==> bindings == old(bindings)
      ensures !old(Bound(bindings, tenant, user, role)) ==>
                bindings == old(bindings)[newId := Binding(tenant, user, role, None, None)]
      ensures exists id :: id in bindings && bindings[id].tenant == tenant && bindings[id].user == user
                           && bindings[id].role == role && bindings[id].scopeType.None? && bindings[id].scopeId.None?
    {
      if !exists id | id in bindings :: Binds(bindings[id], tenant, user, role) {
        bindings := bindings[newId := Binding(tenant, user, role, None, None)];
        assert newId in bindings;
      }
    }

    /** Seeds the tenant, then binds the role to the admin user it finds, if any. */
    method EnsureTenantAdminRoleAssignment(tenant: Id, dir: Directory, ids: NewIds, now: int)
      returns (role: Id, found: Option<Id>)
      requires Valid() && Usable(ids, roles, perms, bindings)
      modifies this
      ensures Valid() && Seeded(roles, perms, links, tenant, role)
      ensures roles == old(roles)[role := Role(tenant, "admin", now)]
      ensures forall r :: Seeded(old(roles), old(perms), old(links), tenant, r) ==>
                role == r && perms == old(perms) && links == old(links)
      ensures found.None? <==> forall u :: !Eligible(dir, tenant, u)
      ensures found.None? ==> bindings == old(bindings)
      ensures found.Some? ==> Eligible(dir, tenant, found.value) && Bound(bindings, tenant, found.value, role)
      ensures found.Some? && Bound(old(bindings), tenant, found.value, role) ==> bindings == old(bindings)
      ensures found.Some? && !Bound(old(bindings), tenant, found.value, role) ==>
                bindings == old(bindings)[ids.binding := Binding(tenant, found.value, role, None, None)]
    {
      role := EnsureAdminRoleAndPermissions(tenant, ids, now);
      found := FindAdminUser(dir, tenant);
      if found.Some? {
        EnsureAdminRoleBinding(found.value, tenant, role, ids.binding);
      }
    }

    /**
    Any number of further runs, each with the users of its day, adds no role, permission or link and
    changes only the time on the role. Bindings are added for users whom some lookup may return, at most
    one each, and none when all of those are bound already.
    */
    method RunAgain(tenant: Id, runs: seq<NewIds>, dirs: seq<Directory>, times: seq<int>, ghost role: Id)
      requires Valid() && Seeded(roles, perms, links, tenant, role) && |times| == |runs| == |dirs|
      requires forall i :: 0 <= i < |runs| ==> Usable(runs[i], roles, perms, bindings)
      requires forall i, j :: 0 <= i < j < |runs| ==> runs[i].binding != runs[j].binding
      modifies this
      ensures Valid() && perms == old(perms) && links == old(links)
      ensures roles.Keys == old(roles).Keys
      ensures forall id :: id in roles ==> roles[id].(updatedAt := 0) == old(roles)[id].(updatedAt := 0)
      ensures OnlyBinds(old(bindings), bindings, tenant, role, dirs)
      ensures (forall u :: EligibleInSome(dirs, tenant, u) ==> Bound(old(bindings), tenant, u, role)) ==>
                bindings == old(bindings)
    {
      for i := 0 to |runs|
        invariant Valid() && Seeded(roles, perms, links, tenant, role)
        invariant perms == old(perms) && links == old(links)
        invariant roles.Keys == old(roles).Keys
        invariant forall id :: id in roles ==> roles[id].(updatedAt := 0) == old(roles)[id].(updatedAt := 0)
        invariant OnlyBinds(old(bindings), bindings, tenant, role, dirs)
        invariant forall j :: i <= j < |runs| ==> runs[j].binding !in bindings
        invariant (forall u :: EligibleInSome(dirs, tenant, u) ==> Bound(old(bindings), tenant, u, role)) ==>
                    bindings == old(bindings)
      {
        assert Usable(runs[i], old(roles), old(perms), old(bindings));
        ghost var before := bindings;
        var again, found := EnsureTenantAdminRoleAssignment(tenant, dirs[i], runs[i], times[i]);
        if bindings != before {
          assert EligibleInSome(dirs, tenant, found.value);
          OneMoreBinding(old(bindings), before, tenant, role, dirs, found.value, runs[i].binding);
        }
      }
    }
  }

  ghost predicate EligibleInSome(dirs: seq<Directory>, tenant: Id, u: Id) {
    exists i :: 0 <= i < |dirs| && Eligible(dirs[i], tenant, u)
  }

  /** The bindings gained are tenant-wide bindings of the role to eligible users, one for each. */
  ghost predicate OnlyBinds(before: map<Id, Binding>, after: map<Id, Binding>, tenant: Id, role: Id,
                            dirs: seq<Directory>) {
    && (forall id :: id in before ==> id in after && after[id] == before[id])
    && (forall id :: id in after && id !in before ==>
          EligibleInSome(dirs, tenant, after[id].user) && Binds(after[id], tenant, after[id].user, role))
    && (forall a, b :: a in after && a !in before && b in after && Binds(after[b], tenant, after[a].user, role) ==>
          a == b)
  }

  lemma OneMoreBinding(start: map<Id, Binding>, before: map<Id, Binding>, tenant: Id, role: Id, dirs: seq<Directory>,
                       user: Id, id: Id)
    requires OnlyBinds(start, before, tenant, role, dirs) && id !in before
    requires EligibleInSome(dirs, tenant, user) && !Bound(before, tenant, user, role)
    ensures OnlyBinds(start, before[id := Binding(tenant, user, role, None, None)], tenant, role, dirs)
  {}

  /** With the unique indexes, seeded means: one admin role, and one linked row for each listed pair. */
  lemma SeededOnce(roles: Roles, perms: Permissions, links: Links, tenant: Id, role: Id, p: Pair)
    requires UniqueRoles(roles) && UniquePermissions(perms) && Seeded(roles, perms, links, tenant, role)
    requires p in AdminPermissions()
    ensures forall r :: IsAdminRole(roles, tenant, r) ==> r == role
    ensures exists id :: id in perms && (role, id) in links && perms[id].description == p.resource + " " + p.action
              && forall a :: a in perms ==>
                   (perms[a].tenant == tenant && perms[a].resource == p.resource && perms[a].action == p.action
                    <==> a == id)
  {
    var i :| 0 <= i < |AdminPermissions()| && AdminPermissions()[i] == p;
    assert Granted(perms, links, role, tenant, AdminPermissions()[i]);
    var id :| id in perms && perms[id] == SeededRow(tenant, p) && (role, id) in links;
    forall a | a in perms ensures SameKey(perms[a], SeededRow(tenant, p)) <==> a == id {
      assert SameKey(perms[a], SeededRow(tenant, p)) ==> SameKey(perms[a], perms[id]);
    }
  }

  /** Other tenants' permissions keep their rows, and gain none. */
  lemma OtherTenantsUntouched(perms: Permissions, links: Links, perms': Permissions, links': Links,
                              role: Id, tenant: Id, pairs: seq<Pair>)
    requires Extends(perms, links, perms', links', role, tenant, pairs)
    ensures (map id | id in perms' && perms'[id].tenant != tenant :: perms'[id])
         == (map id | id in perms && perms[id].tenant != tenant :: perms[id])
  {
    forall id | id in perms && perms[id].tenant != tenant ensures id in perms' && perms'[id] == perms[id] {}
    forall id | id in perms' && perms'[id].tenant != tenant ensures id in perms && perms[id].tenant != tenant {
      if id in perms {
        assert SameKey(perms'[id], perms[id]);
      }
    }
  }
}
