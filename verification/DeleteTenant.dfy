/**
Deleting a tenant: sixteen DELETE statements in one transaction, ordered so that rows go before the
rows they refer to.

The tables are one map from (table, id) to row, with the columns the statements and the foreign keys
read. The migrated schema enforces few keys among these tables. Most cascade: deleting the row they
name deletes the row that holds them, and such a row is in no statement's count. One, from group
memberships to users, refuses instead. A user's project is a plain column with no key behind it.
*/
module DeleteTenant {
  import opened Options

  type Id(==, !new) = string

  datatype Table =
    | RoleBindings | RolePermissions | Roles | Permissions | ApiScopes | TotpSecrets | BackupCodes
    | WebauthnCredentials | Sessions | RefreshTokens | UserGroups | OauthClients | Projects
    | TenantMappings | Users | Tenants

  datatype Key = Key(table: Table, id: Id)

  datatype Row = Row(tenant: Option<Id>, user: Option<Id>, role: Option<Id>, permission: Option<Id>,
                     project: Option<Id>)

  type Database = map<Key, Row>

  /** The order in which the tables are emptied of the tenant's rows. */
  const ORDER := [RoleBindings, RolePermissions, Roles, Permissions, ApiScopes, TotpSecrets, BackupCodes,
                  WebauthnCredentials, Sessions, RefreshTokens, UserGroups, OauthClients, Projects,
                  TenantMappings, Users, Tenants]

  // ---------------------------------------------------------------- foreign keys

  function Named(table: Table, id: Option<Id>): set<Key> {
    if id.Some? then {Key(table, id.value)} else {}
  }

  /** The rows whose deletion deletes this row: ON DELETE CASCADE. */
  function Parents(k: Key, row: Row): set<Key> {
    match k.table
    case RolePermissions => Named(Roles, row.role) + Named(Permissions, row.permission)
    case RoleBindings => Named(Users, row.user) + Named(Roles, row.role)
    case TotpSecrets => Named(Users, row.user) + Named(Tenants, row.tenant)
    case Projects => Named(Tenants, row.tenant)
    case _ => {}
  }

  /** The rows that cannot be deleted while this row is there: NO ACTION. */
  function Guarded(k: Key, row: Row): set<Key> {
    if k.table == UserGroups then Named(Users, row.user) else {}
  }

  predicate HasParent(child: Table, parent: Table) {
    match child
    case RolePermissions => parent == Roles || parent == Permissions
    case RoleBindings => parent == Users || parent == Roles
    case TotpSecrets => parent == Users || parent == Tenants
    case Projects => parent == Tenants
    case _ => false
  }

  lemma ParentTables(k: Key, row: Row, r: Key)
    requires r in Parents(k, row)
    ensures HasParent(k.table, r.table)
  {}

  /** A row with all columns filled has a parent in exactly those tables. */
  lemma ParentTablesExact(k: Key, id: Id, t: Table)
    ensures HasParent(k.table, t) <==> Key(t, id) in Parents(k, Row(Some(id), Some(id), Some(id), Some(id), Some(id)))
  {}

  /** The tables whose rows cascade. */
  predicate IsLeaf(t: Table) {
    t == RolePermissions || t == RoleBindings || t == TotpSecrets || t == Projects
  }

  /** Cascades are one step deep: a row that others cascade from cascades from nothing itself. */
  lemma LeavesAreNoParents(child: Table, parent: Table)
    requires HasParent(child, parent)
    ensures IsLeaf(child) && !IsLeaf(parent)
  {}

  predicate NamesParent(k: Key, row: Row, s: set<Key>) {
    exists r :: r in Parents(k, row) && r in s
  }

  /** The rows that go when the rows in `s` are deleted. */
  function Struck(db: Database, s: set<Key>): set<Key> {
    set k | k in db && (k in s || NamesParent(k, db[k], s))
  }

  /** The cascade is complete: nothing that is left has a parent among the rows that went. */
  lemma StruckIsClosed(db: Database, s: set<Key>, k: Key)
    requires k in db && k !in Struck(db, s)
    ensures !NamesParent(k, db[k], Struck(db, s))
  {
    forall r | r in Parents(k, db[k]) ensures r !in Struck(db, s) {
      ParentTables(k, db[k], r);
      LeavesAreNoParents(k.table, r.table);
      if r in db {
        NoParents(r, db[r]);
      }
    }
  }

  lemma NoParents(k: Key, row: Row)
    requires !IsLeaf(k.table)
    ensures Parents(k, row) == {}
  {}

  // ---------------------------------------------------------------- one statement

  predicate HasTenant(db: Database, k: Key, tenant: Id) {
    k in db && db[k].tenant == Some(tenant)
  }

  /** The row whose tenant decides, for tables without a tenant column of their own: the WHERE subquery. */
  function Via(k: Key, row: Row): Option<Key> {
    match k.table
    case RolePermissions => if row.role.Some? then Some(Key(Roles, row.role.value)) else None
    case Sessions => if row.user.Some? then Some(Key(Users, row.user.value)) else None
    case RefreshTokens => if row.user.Some? then Some(Key(Users, row.user.value)) else None
    case UserGroups => if row.user.Some? then Some(Key(Users, row.user.value)) else None
    case _ => None
  }

  predicate HasVia(child: Table, parent: Table) {
    match child
    case RolePermissions => parent == Roles
    case Sessions => parent == Users
    case RefreshTokens => parent == Users
    case UserGroups => parent == Users
    case _ => false
  }

  lemma ViaTables(k: Key, row: Row)
    requires Via(k, row).Some?
    ensures HasVia(k.table, Via(k, row).value.table) && !IsLeaf(Via(k, row).value.table)
  {}

  predicate IndirectTable(t: Table) {
    t == RolePermissions || t == Sessions || t == RefreshTokens || t == UserGroups
  }

  /** The WHERE clause of the table's DELETE, subqueries included, on the database as it is. */
  predicate Selected(db: Database, k: Key, tenant: Id)
    requires k in db
  {
    if IndirectTable(k.table) then Via(k, db[k]).Some? && HasTenant(db, Via(k, db[k]).value, tenant)
    else HasTenant(db, k, tenant) || (k.table == Tenants && k.id == tenant)
  }

  function Doomed(db: Database, table: Table, tenant: Id): set<Key> {
    set k | k in db && k.table == table && Selected(db, k, tenant)
  }

  function DeleteFrom(db: Database, table: Table, tenant: Id): Database {
    db - Struck(db, Doomed(db, table, tenant))
  }

  /** The database after deleting from the given tables, in order. */
  function DeleteAll(db: Database, order: seq<Table>, tenant: Id): Database {
    if order == [] then db
    else DeleteFrom(DeleteAll(db, order[..|order| - 1], tenant), order[|order| - 1], tenant)
  }

  /** A guarding row would be left pointing at a deleted one: the statement is refused. */
  predicate IsRefused(db: Database, table: Table, tenant: Id) {
    var after := DeleteFrom(db, table, tenant);
    exists k, r :: k in after && r in Guarded(k, after[k]) && r in db && r !in after
  }

  // ---------------------------------------------------------------- the transaction

  /** The rows a statement takes along without counting them. */
  ghost function TakenAlong(db: Database, table: Table, tenant: Id): set<Key> {
    set k | k in db && k.table != table && NamesParent(k, db[k], Doomed(db, table, tenant))
  }

  /** One DELETE on the transaction's view: the selected rows go and are counted, their children go uncounted. */
  method ExecDelete(tx: Database, table: Table, tenant: Id) returns (tx': Database, count: nat)
    ensures forall k :: k in tx' <==> k in tx && !(k.table == table && Selected(tx, k, tenant))
                                      && k !in TakenAlong(tx, table, tenant)
    ensures forall k :: k in tx' ==> tx'[k] == tx[k]
    ensures |tx| == |tx'| + count + |TakenAlong(tx, table, tenant)|
    ensures tx' == DeleteFrom(tx, table, tenant) && count == |Doomed(tx, table, tenant)|
  {
    var gone := Doomed(tx, table, tenant);
    tx' := tx - Struck(tx, gone);
    count := |gone|;
    StruckParts(tx, table, tenant);
    DeletedRowsCount(tx, Struck(tx, gone));
  }

  /** The statement's outcome: an error when a key refuses it. */
  method TryDelete(tx: Database, table: Table, tenant: Id) returns (result: Option<(Database, nat)>)
    ensures result.None? <==> IsRefused(tx, table, tenant)
    ensures result.Some? ==> result.value == (DeleteFrom(tx, table, tenant), |Doomed(tx, table, tenant)|)
  {
    if IsRefused(tx, table, tenant) {
      return None;
    }
    var tx', count := ExecDelete(tx, table, tenant);
    return Some((tx', count));
  }

  /** A statement is refused exactly when it deletes a user whom a group membership still names. */
  lemma RefusedIff(db: Database, table: Table, tenant: Id)
    ensures IsRefused(db, table, tenant) <==>
            table == Users && exists k :: k in db && k.table == UserGroups && NamesDoomedUser(db, db[k], tenant)
  {
    var after := DeleteFrom(db, table, tenant);
    if IsRefused(db, table, tenant) {
      var k, r :| k in after && r in Guarded(k, after[k]) && r in db && r !in after;
      NoParents(r, db[r]);
      assert NamesDoomedUser(db, db[k], tenant);
    }
    if table == Users {
      forall k | k in db && k.table == UserGroups && NamesDoomedUser(db, db[k], tenant)
        ensures IsRefused(db, table, tenant)
      {
        NoParents(k, db[k]);
        var r := Key(Users, db[k].user.value);
        assert k in after && r in Guarded(k, after[k]) && r in db && r !in after;
      }
    }
  }

  predicate NamesDoomedUser(db: Database, row: Row, tenant: Id) {
    row.user.Some? && HasTenant(db, Key(Users, row.user.value), tenant)
  }

  lemma StruckParts(db: Database, table: Table, tenant: Id)
    ensures var gone, taken := Doomed(db, table, tenant), TakenAlong(db, table, tenant);
            Struck(db, gone) == gone + taken && gone !! taken && |Struck(db, gone)| == |gone| + |taken|
  {
    var gone := Doomed(db, table, tenant);
    forall k | k in Struck(db, gone) && k.table == table ensures k in gone {
      if k !in gone {
        var r :| r in Parents(k, db[k]) && r in gone;
        ParentTables(k, db[k], r);
        LeavesAreNoParents(k.table, r.table);
      }
    }
    assert Struck(db, gone) == gone + TakenAlong(db, table, tenant);
  }

  ghost predicate Distinct(order: seq<Table>) {
    forall i, j :: 0 <= i < j < |order| ==> order[i] != order[j]
  }

  /** How many rows the i-th statement counts. */
  ghost function Affected(db: Database, order: seq<Table>, i: nat, tenant: Id): nat
    requires i < |order|
  {
    |Doomed(DeleteAll(db, order[..i], tenant), order[i], tenant)|
  }

  /** A key refuses the i-th statement. */
  ghost predicate RefusedAt(db: Database, order: seq<Table>, i: nat, tenant: Id)
    requires i < |order|
  {
    IsRefused(DeleteAll(db, order[..i], tenant), order[i], tenant)
  }

  ghost predicate NotRefused(db: Database, order: seq<Table>, n: nat, tenant: Id)
    requires n <= |order|
  {
    forall k :: 0 <= k < n ==> !RefusedAt(db, order, k, tenant)
  }

  /** The first `n` counts are those of their statements. */
  ghost predicate Counted(db: Database, order: seq<Table>, n: nat, tenant: Id, counts: map<Table, nat>)
    requires n <= |order|
  {
    forall k :: 0 <= k < n ==> order[k] in counts && counts[order[k]] == Affected(db, order, k, tenant)
  }

  lemma CountedNext(db: Database, order: seq<Table>, i: nat, tenant: Id, tx: Database, counts: map<Table, nat>,
                    count: nat)
    requires Distinct(order) && i < |order| && tx == DeleteAll(db, order[..i], tenant)
    requires Counted(db, order, i, tenant, counts) && count == |Doomed(tx, order[i], tenant)|
    ensures Counted(db, order, i + 1, tenant, counts[order[i] := count])
    ensures DeleteAll(db, order[..i + 1], tenant) == DeleteFrom(tx, order[i], tenant)
  {
    assert order[..i + 1][..i] == order[..i];
  }

  /**
  The statements on the transaction's own view. `failAt` says which statement fails from outside, if
  any; a value one past the last statement stands for a failing commit.
  */
  method RunStatements(db: Database, order: seq<Table>, tenant: Id, failAt: Option<nat>)
    returns (result: Option<(Database, map<Table, nat>)>)
    requires Distinct(order)
    ensures result.None? <==>
      (failAt.Some? && failAt.value < |order|) || !NotRefused(db, order, |order|, tenant)
    ensures result.Some? ==> result.value.0 == DeleteAll(db, order, tenant)
    ensures result.Some? ==> Counted(db, order, |order|, tenant, result.value.1)
  {
    var tx := db;
    var deleted: map<Table, nat> := map[];
    for i := 0 to |order|
      invariant tx == DeleteAll(db, order[..i], tenant)
      invariant failAt.Some? ==> i <= failAt.value
      invariant NotRefused(db, order, i, tenant)
      invariant Counted(db, order, i, tenant, deleted)
    {
      if failAt.Some? && failAt.value == i {
        return None;
      }
      var step := TryDelete(tx, order[i], tenant);
      if step.None? {
        assert RefusedAt(db, order, i, tenant);
        return None;
      }
      assert !RefusedAt(db, order, i, tenant);
      CountedNext(db, order, i, tenant, tx, deleted, step.value.1);
      tx := step.value.0;
      deleted := deleted[order[i] := step.value.1];
    }
    assert order[..|order|] == order;
    return Some((tx, deleted));
  }

  class TenantRepository {
    var rows: Database

    constructor (db: Database)
      ensures rows == db
    {
      rows := db;
    }

    /** Publishes the transaction's view on commit; whatever fails leaves the rows as they were. */
    method DeleteInOrder(order: seq<Table>, tenant: Id, failAt: Option<nat>) returns (counts: Option<map<Table, nat>>)
      requires Distinct(order)
      modifies this
      ensures counts.None? <==>
        (failAt.Some? && failAt.value <= |order|) || !NotRefused(old(rows), order, |order|, tenant)
      ensures counts.None? ==> rows == old(rows)
      ensures counts.Some? ==> rows == DeleteAll(old(rows), order, tenant)
      ensures counts.Some? ==> Counted(old(rows), order, |order|, tenant, counts.value)
    {
      var result := RunStatements(rows, order, tenant, failAt);
      if result.None? || failAt == Some(|order|) {
        return None;
      }
      rows := result.value.0;
      counts := Some(result.value.1);
    }

    /**
    Deletes the tenant. No key of an intact database ever refuses; on success the tenant's rows and
    their children are gone, each count is the tenant's share of the table, and the counts miss exactly
    the rows of others that were taken along.
    */
    method Delete(tenant: Id, failAt: Option<nat>) returns (counts: Option<map<Table, nat>>)
      requires Intact(rows)
      modifies this
      ensures Intact(rows)
      ensures counts.None? <==> failAt.Some? && failAt.value <= 16
      ensures counts.None? ==> rows == old(rows)
      ensures counts.Some? ==> forall k :: k in old(rows) ==>
        (k !in rows <==> Carries(old(rows), k, tenant) || HangsOn(old(rows), k, tenant))
      ensures counts.Some? ==> forall k :: k in rows ==> k in old(rows) && rows[k] == old(rows)[k]
      ensures counts.Some? ==> forall t: Table :: t in counts.value
      ensures counts.Some? ==> forall t: Table ::
        counts.value[t] == |set k | k in old(rows) && k.table == t && Carries(old(rows), k, tenant)|
      ensures counts.Some? ==>
        |old(rows)| == |rows| + Total(counts.value, ORDER) + |Collateral(old(rows), tenant)|
    {
      OrderIsCascade();
      NeverRefused(rows, ORDER, tenant);
      assert NotRefused(rows, ORDER, |ORDER|, tenant);
      counts := DeleteInOrder(ORDER, tenant, failAt);
      if counts.Some? {
        DeleteAllIs(old(rows), ORDER, tenant);
        AllTables(old(rows), ORDER, tenant);
        assert ORDER[..|ORDER|] == ORDER;
        PrefixIntact(old(rows), ORDER, |ORDER|, tenant);
        CountsAreShares(old(rows), tenant, counts.value);
        CountsConserve(old(rows), ORDER, tenant, counts.value);
        OutcomeByColumns(old(rows), tenant, counts.value);
      }
    }
  }

  // ---------------------------------------------------------------- what the order guarantees

  /** No table is emptied after one that its rows' fate depends on. */
  ghost predicate ChildFirst(order: seq<Table>) {
    forall i, j :: 0 <= i < j < |order| ==> !HasParent(order[j], order[i]) && !HasVia(order[j], order[i])
  }

  function Position(t: Table): nat {
    match t
    case RoleBindings => 0
    case RolePermissions => 1
    case Roles => 2
    case Permissions => 3
    case ApiScopes => 4
    case TotpSecrets => 5
    case BackupCodes => 6
    case WebauthnCredentials => 7
    case Sessions => 8
    case RefreshTokens => 9
    case UserGroups => 10
    case OauthClients => 11
    case Projects => 12
    case TenantMappings => 13
    case Users => 14
    case Tenants => 15
  }

  lemma OrderByPosition()
    ensures |ORDER| == 16
    ensures forall i :: 0 <= i < 16 ==> Position(ORDER[i]) == i
  {}

  lemma TableAtPosition(t: Table)
    ensures Position(t) < |ORDER| && ORDER[Position(t)] == t
  {}

  lemma ChildrenComeFirst(child: Table, parent: Table)
    requires HasParent(child, parent) || HasVia(child, parent)
    ensures Position(child) < Position(parent)
  {}

  /** An order that names every table once and empties children before parents. */
  ghost predicate Cascade(order: seq<Table>) {
    ChildFirst(order) && Distinct(order) && forall t: Table :: t in order
  }

  /** The program's order is one. */
  lemma OrderIsCascade()
    ensures Cascade(ORDER) && |ORDER| == 16
  {
    OrderByPosition();
    forall i, j | 0 <= i < j < |ORDER| ensures !HasParent(ORDER[j], ORDER[i]) && !HasVia(ORDER[j], ORDER[i]) {
      if HasParent(ORDER[j], ORDER[i]) || HasVia(ORDER[j], ORDER[i]) {
        ChildrenComeFirst(ORDER[j], ORDER[i]);
      }
    }
    forall t: Table ensures t in ORDER {
      TableAtPosition(t);
    }
  }

  /** The tenant's rows, as the WHERE clauses see them before anything is deleted. */
  predicate Owned(db: Database, k: Key, tenant: Id) {
    k in db && Selected(db, k, tenant)
  }

  function OwnedIn(db: Database, t: Table, tenant: Id): set<Key> {
    set k | k in db && k.table == t && Owned(db, k, tenant)
  }

  /** The tenant's rows in the tables emptied so far. */
  ghost function OwnedOf(db: Database, done: set<Table>, tenant: Id): set<Key> {
    set k | k in db && k.table in done && Owned(db, k, tenant)
  }

  ghost function OwnedRows(db: Database, tenant: Id): set<Key> {
    set k | k in db && Owned(db, k, tenant)
  }

  ghost function Left(db: Database, done: set<Table>, tenant: Id): Database {
    db - Struck(db, OwnedOf(db, done, tenant))
  }

  /** The table has been left whole: neither it nor a table it depends on has been emptied. */
  ghost predicate Whole(t: Table, done: set<Table>) {
    t !in done && forall p :: p in done ==> !HasParent(t, p) && !HasVia(t, p)
  }

  lemma WholeRows(db: Database, done: set<Table>, k: Key, tenant: Id)
    requires k in db && k.table !in done && forall p :: p in done ==> !HasParent(k.table, p)
    ensures k in Left(db, done, tenant)
  {
    if r :| r in Parents(k, db[k]) && r in OwnedOf(db, done, tenant) {
      ParentTables(k, db[k], r);
      assert false;
    }
  }

  /** While the tables a WHERE clause consults are whole, it selects what it would have at the start. */
  lemma SelectionIsStable(db: Database, done: set<Table>, k: Key, tenant: Id)
    requires k in db && Whole(k.table, done)
    ensures k in Left(db, done, tenant) && Selected(Left(db, done, tenant), k, tenant) == Selected(db, k, tenant)
  {
    WholeRows(db, done, k, tenant);
    if Via(k, db[k]).Some? {
      var r := Via(k, db[k]).value;
      ViaTables(k, db[k]);
      if r in db {
        NoParents(r, db[r]);
        WholeVia(db, done, k.table, r, tenant);
      }
    }
  }

  lemma WholeVia(db: Database, done: set<Table>, child: Table, r: Key, tenant: Id)
    requires r in db && HasVia(child, r.table) && Whole(child, done) && Parents(r, db[r]) == {}
    ensures r in Left(db, done, tenant)
  {
    assert r.table !in done;
  }

  /** The next statement counts the tenant's rows of its table, all of them and no others. */
  lemma DoomedAreOwned(db: Database, done: set<Table>, table: Table, tenant: Id)
    requires Whole(table, done)
    ensures Doomed(Left(db, done, tenant), table, tenant) == OwnedIn(db, table, tenant)
  {
    forall k | k in db && k.table == table
      ensures k in Left(db, done, tenant) && Selected(Left(db, done, tenant), k, tenant) == Selected(db, k, tenant)
    {
      SelectionIsStable(db, done, k, tenant);
    }
  }

  lemma StruckInTurn(db: Database, s: set<Key>, t: set<Key>)
    ensures (db - Struck(db, s)) - Struck(db - Struck(db, s), t) == db - Struck(db, s + t)
  {
    var now := db - Struck(db, s);
    forall k | k in db ensures k in Struck(db, s + t) <==> k in Struck(db, s) || (k in now && k in Struck(now, t)) {
      if NamesParent(k, db[k], s + t) {
        assert NamesParent(k, db[k], s) || NamesParent(k, db[k], t);
      }
    }
  }

  lemma DeleteFromLeft(db: Database, done: set<Table>, table: Table, tenant: Id)
    requires Whole(table, done)
    ensures DeleteFrom(Left(db, done, tenant), table, tenant) == Left(db, done + {table}, tenant)
  {
    DoomedAreOwned(db, done, table, tenant);
    StruckInTurn(db, OwnedOf(db, done, tenant), OwnedIn(db, table, tenant));
    assert OwnedOf(db, done, tenant) + OwnedIn(db, table, tenant) == OwnedOf(db, done + {table}, tenant);
  }

  ghost function TablesIn(order: seq<Table>): set<Table> {
    set t | t in order
  }

  /** What the order says about one table and those before it. */
  lemma TablesBefore(order: seq<Table>, n: nat)
    requires ChildFirst(order) && Distinct(order) && n < |order|
    ensures ChildFirst(order[..n]) && Distinct(order[..n])
    ensures Whole(order[n], TablesIn(order[..n]))
    ensures TablesIn(order[..n + 1]) == TablesIn(order[..n]) + {order[n]}
  {
    assert order[..n + 1] == order[..n] + [order[n]];
  }

  /** After any child-first sequence of deletes, the tenant's rows of those tables and their children are gone. */
  lemma {:induction false} DeleteAllIs(db: Database, order: seq<Table>, tenant: Id)
    requires ChildFirst(order) && Distinct(order)
    ensures DeleteAll(db, order, tenant) == Left(db, TablesIn(order), tenant)
  {
    if order == [] {
      assert OwnedOf(db, TablesIn(order), tenant) == {};
      assert Struck(db, {}) == {};
    } else {
      var n := |order| - 1;
      TablesBefore(order, n);
      assert order[..n + 1] == order;
      DeleteAllIs(db, order[..n], tenant);
      DeleteFromLeft(db, TablesIn(order[..n]), order[n], tenant);
    }
  }

  lemma PrefixIs(db: Database, order: seq<Table>, n: nat, tenant: Id)
    requires Cascade(order) && n <= |order|
    ensures DeleteAll(db, order[..n], tenant) == Left(db, TablesIn(order[..n]), tenant)
  {
    DeleteAllIs(db, order[..n], tenant);
  }

  lemma AllTables(db: Database, order: seq<Table>, tenant: Id)
    requires forall t: Table :: t in order
    ensures OwnedOf(db, TablesIn(order), tenant) == OwnedRows(db, tenant)
  {}

  /** Each statement counts the tenant's rows of its table as they were at the start. */
  lemma CountIsOwned(db: Database, order: seq<Table>, i: nat, tenant: Id)
    requires Cascade(order) && i < |order|
    ensures Affected(db, order, i, tenant) == |OwnedIn(db, order[i], tenant)|
  {
    TablesBefore(order, i);
    PrefixIs(db, order, i, tenant);
    DoomedAreOwned(db, TablesIn(order[..i]), order[i], tenant);
  }

  lemma CountsAreShares(db: Database, tenant: Id, counts: map<Table, nat>)
    requires Cascade(ORDER) && Counted(db, ORDER, |ORDER|, tenant, counts)
    ensures forall t: Table :: t in counts && counts[t] == |OwnedIn(db, t, tenant)|
    ensures Shares(db, ORDER, tenant, counts)
  {
    forall t: Table ensures t in counts && counts[t] == |OwnedIn(db, t, tenant)| {
      TableAtPosition(t);
      CountIsOwned(db, ORDER, Position(t), tenant);
    }
  }

  // ---------------------------------------------------------------- what goes

  /** A row of someone else with a cascading key into the tenant's rows. */
  predicate Inbound(db: Database, k: Key, r: Key, tenant: Id) {
    k in db && !Owned(db, k, tenant) && r in Parents(k, db[k]) && Owned(db, r, tenant)
  }

  /** The rows of others that go along. */
  ghost function Collateral(db: Database, tenant: Id): set<Key> {
    set k | k in db && !Owned(db, k, tenant) && NamesParent(k, db[k], OwnedRows(db, tenant))
  }

  /** A row is gone at the end if and only if it is the tenant's or has a cascading key into the tenant's rows. */
  lemma GoneIff(db: Database, order: seq<Table>, k: Key, tenant: Id)
    requires Cascade(order) && k in db
    ensures k !in DeleteAll(db, order, tenant) <==> Owned(db, k, tenant) || exists r :: Inbound(db, k, r, tenant)
    ensures k in DeleteAll(db, order, tenant) ==> DeleteAll(db, order, tenant)[k] == db[k]
  {
    DeleteAllIs(db, order, tenant);
    AllTables(db, order, tenant);
    if !Owned(db, k, tenant) && NamesParent(k, db[k], OwnedRows(db, tenant)) {
      var r :| r in Parents(k, db[k]) && r in OwnedRows(db, tenant);
      assert Inbound(db, k, r, tenant);
    }
  }

  /** Exactly the tenant's rows go if and only if nobody else has a cascading key into them. */
  lemma OnlyOwnedGoneIff(db: Database, order: seq<Table>, tenant: Id)
    requires Cascade(order)
    ensures (forall k :: k in DeleteAll(db, order, tenant) <==> k in db && !Owned(db, k, tenant))
       <==> forall k, r :: !Inbound(db, k, r, tenant)
  {
    forall k | k in db
      ensures k !in DeleteAll(db, order, tenant) <==> Owned(db, k, tenant) || exists r :: Inbound(db, k, r, tenant)
    {
      GoneIff(db, order, k, tenant);
    }
    DeleteAllIs(db, order, tenant);
    assert DeleteAll(db, order, tenant).Keys <= db.Keys;
    if k, r :| Inbound(db, k, r, tenant) {
      assert k !in DeleteAll(db, order, tenant);
    }
  }

  /** Each table's count is the tenant's share of it. */
  ghost predicate Shares(db: Database, order: seq<Table>, tenant: Id, counts: map<Table, nat>) {
    forall i :: 0 <= i < |order| ==> order[i] in counts && counts[order[i]] == |OwnedIn(db, order[i], tenant)|
  }

  function Total(counts: map<Table, nat>, order: seq<Table>): nat
    requires forall i :: 0 <= i < |order| ==> order[i] in counts
  {
    if order == [] then 0 else Total(counts, order[..|order| - 1]) + counts[order[|order| - 1]]
  }

  lemma {:induction false} TotalIsOwned(db: Database, order: seq<Table>, tenant: Id, counts: map<Table, nat>)
    requires Distinct(order)
    requires Shares(db, order, tenant, counts)
    ensures Total(counts, order) == |OwnedOf(db, TablesIn(order), tenant)|
  {
    if order == [] {
      assert OwnedOf(db, TablesIn(order), tenant) == {};
    } else {
      var n := |order| - 1;
      var init, last := order[..n], order[n];
      TotalIsOwned(db, init, tenant, counts);
      assert order == init + [last];
      assert OwnedOf(db, TablesIn(order), tenant) == OwnedOf(db, TablesIn(init), tenant) + OwnedIn(db, last, tenant);
      assert OwnedOf(db, TablesIn(init), tenant) !! OwnedIn(db, last, tenant);
    }
  }

  lemma StruckAreOwnedAndCollateral(db: Database, tenant: Id)
    ensures var owned, collateral := OwnedRows(db, tenant), Collateral(db, tenant);
            Struck(db, owned) == owned + collateral && owned !! collateral
            && |Struck(db, owned)| == |owned| + |collateral|
  {
    assert Struck(db, OwnedRows(db, tenant)) == OwnedRows(db, tenant) + Collateral(db, tenant);
  }

  /** Every row is still there, counted, or taken along. */
  lemma CountsConserve(db: Database, order: seq<Table>, tenant: Id, counts: map<Table, nat>)
    requires Cascade(order)
    requires Shares(db, order, tenant, counts)
    ensures |db| == |DeleteAll(db, order, tenant)| + Total(counts, order) + |Collateral(db, tenant)|
  {
    DeleteAllIs(db, order, tenant);
    AllTables(db, order, tenant);
    TotalIsOwned(db, order, tenant, counts);
    StruckAreOwnedAndCollateral(db, tenant);
    DeletedRowsCount(db, Struck(db, OwnedRows(db, tenant)));
  }

  /** The counts add up to the rows removed if and only if nobody else has a cascading key into the tenant's rows. */
  lemma CountsAreRemovedIff(db: Database, order: seq<Table>, tenant: Id, counts: map<Table, nat>)
    requires Cascade(order)
    requires Shares(db, order, tenant, counts)
    ensures |db| == |DeleteAll(db, order, tenant)| + Total(counts, order) <==> forall k, r :: !Inbound(db, k, r, tenant)
  {
    CountsConserve(db, order, tenant, counts);
    if k, r :| Inbound(db, k, r, tenant) {
      assert r in Parents(k, db[k]) && r in OwnedRows(db, tenant);
      assert k in Collateral(db, tenant);
    } else {
      forall k | k in db && !Owned(db, k, tenant) ensures !NamesParent(k, db[k], OwnedRows(db, tenant)) {
        if r :| r in Parents(k, db[k]) && r in OwnedRows(db, tenant) {
          assert Inbound(db, k, r, tenant);
          assert false;
        }
      }
      assert Collateral(db, tenant) == {};
    }
  }

  /** Deleting the same tenant again finds nothing. */
  lemma SecondDeleteFindsNothing(db: Database, order: seq<Table>, k: Key, tenant: Id)
    requires Cascade(order)
    ensures !Owned(DeleteAll(db, order, tenant), k, tenant)
  {
    var after := DeleteAll(db, order, tenant);
    DeleteAllIs(db, order, tenant);
    if k in after {
      GoneIff(db, order, k, tenant);
    }
  }

  // ---------------------------------------------------------------- references

  /** Every enforced key names a row that is there. */
  ghost predicate Intact(db: Database) {
    forall k, r :: k in db && (r in Parents(k, db[k]) || r in Guarded(k, db[k])) ==> r in db
  }

  /** Every prefix of the deletes keeps every enforced key intact, whoever refers to whom. */
  lemma PrefixIntact(db: Database, order: seq<Table>, n: nat, tenant: Id)
    requires Intact(db) && Cascade(order) && n <= |order|
    ensures Intact(DeleteAll(db, order[..n], tenant))
  {
    PrefixIs(db, order, n, tenant);
    var done := TablesIn(order[..n]);
    var owned := OwnedOf(db, done, tenant);
    var now := Left(db, done, tenant);
    forall k, r | k in now && (r in Parents(k, now[k]) || r in Guarded(k, now[k])) ensures r in now {
      if r in Parents(k, db[k]) {
        StruckIsClosed(db, owned, k);
      } else {
        MembershipsGoFirst(db, order, n, k, r, tenant);
      }
    }
  }

  /** A group membership that is left names a user that is left. */
  lemma MembershipsGoFirst(db: Database, order: seq<Table>, n: nat, k: Key, r: Key, tenant: Id)
    requires Intact(db) && Cascade(order) && n <= |order|
    requires k in Left(db, TablesIn(order[..n]), tenant) && r in Guarded(k, db[k])
    ensures r in Left(db, TablesIn(order[..n]), tenant)
  {
    var done := TablesIn(order[..n]);
    NoParents(r, db[r]);
    if r in OwnedOf(db, done, tenant) {
      DoneBefore(order, n, UserGroups, Users);
      assert false;
    }
  }

  lemma DoneBefore(order: seq<Table>, n: nat, child: Table, parent: Table)
    requires Cascade(order) && n <= |order| && HasVia(child, parent) && parent in TablesIn(order[..n])
    ensures child in TablesIn(order[..n])
  {
    var j :| 0 <= j < n && order[j] == parent;
    assert child in order;
    var i :| 0 <= i < |order| && order[i] == child;
    assert i < j;
    assert order[..n][i] == child;
  }

  /** So no statement of the transaction is refused. */
  lemma NeverRefused(db: Database, order: seq<Table>, tenant: Id)
    requires Intact(db) && Cascade(order)
    ensures forall i :: 0 <= i < |order| ==> !RefusedAt(db, order, i, tenant)
  {
    forall i | 0 <= i < |order| ensures !RefusedAt(db, order, i, tenant) {
      PrefixIntact(db, order, i + 1, tenant);
      assert order[..i + 1][..i] == order[..i];
    }
  }

  /** A user's project is there, or the user has none. */
  ghost predicate ProjectsLive(db: Database) {
    forall k :: k in db && k.table == Users && db[k].project.Some? ==> Key(Projects, db[k].project.value) in db
  }

  /** A user is left with a dead project after a prefix exactly when the project has gone and the user has not. */
  lemma DeadProjectIff(db: Database, order: seq<Table>, n: nat, k: Key, tenant: Id)
    requires ProjectsLive(db) && Cascade(order) && n <= |order|
    requires k in db && k.table == Users && db[k].project.Some?
    ensures var done, p := TablesIn(order[..n]), Key(Projects, db[k].project.value);
            var now := DeleteAll(db, order[..n], tenant);
            k in now && p !in now <==>
            && !(Users in done && Owned(db, k, tenant))
            && ((Projects in done && Owned(db, p, tenant))
                || (Tenants in done && p in db && NamesParent(p, db[p], OwnedIn(db, Tenants, tenant))))
  {
    PrefixIs(db, order, n, tenant);
    var done, p := TablesIn(order[..n]), Key(Projects, db[k].project.value);
    NoParents(k, db[k]);
    assert k in Left(db, done, tenant) <==> !(Users in done && Owned(db, k, tenant));
    ProjectParents(db, done, p, tenant);
  }

  lemma ProjectParents(db: Database, done: set<Table>, p: Key, tenant: Id)
    requires p in db && p.table == Projects
    ensures NamesParent(p, db[p], OwnedOf(db, done, tenant)) <==>
            Tenants in done && NamesParent(p, db[p], OwnedIn(db, Tenants, tenant))
  {
    if r :| r in Parents(p, db[p]) && r in OwnedOf(db, done, tenant) {
      assert r in OwnedIn(db, Tenants, tenant);
    }
    if r :| Tenants in done && r in Parents(p, db[p]) && r in OwnedIn(db, Tenants, tenant) {
      assert r in OwnedOf(db, done, tenant);
    }
  }

  lemma DoneByPosition(t: Table, n: nat)
    requires n <= 16
    ensures |ORDER| == 16 && (t in TablesIn(ORDER[..n]) <==> Position(t) < n)
  {
    OrderByPosition();
    TableAtPosition(t);
    if Position(t) < n {
      assert ORDER[..n][Position(t)] == t;
    }
  }

  /**
  In the program's order: from statement 13 on, every user of one of the tenant's projects has a dead
  project, the tenant's own users until they go in statement 15 and other users for good; so has, at the
  end, a user of a project that the tenant's record took along.
  */
  lemma DeadProjectInOrder(db: Database, n: nat, k: Key, tenant: Id)
    requires ProjectsLive(db) && n <= 16 && k in db && k.table == Users && db[k].project.Some?
    ensures |ORDER| == 16
    ensures var p, now := Key(Projects, db[k].project.value), DeleteAll(db, ORDER[..n], tenant);
            k in now && p !in now <==>
            && (db[k].tenant == Some(tenant) ==> n < 15)
            && ((n >= 13 && NamesTenants(db, Projects, db[k].project, tenant))
                || (n == 16 && p in db && NamesRecord(db, db[p].tenant, tenant)))
  {
    OrderIsCascade();
    DoneByPosition(Users, n);
    DoneByPosition(Projects, n);
    DoneByPosition(Tenants, n);
    DeadProjectAt(db, ORDER, n, k, tenant);
    var p := Key(Projects, db[k].project.value);
    OwnedByColumns(db, k, tenant);
    OwnedByColumns(db, p, tenant);
    RecordByColumns(db, p, tenant);
  }

  lemma RecordByColumns(db: Database, p: Key, tenant: Id)
    requires p in db && p.table == Projects
    ensures NamesParent(p, db[p], OwnedIn(db, Tenants, tenant)) <==> NamesRecord(db, db[p].tenant, tenant)
  {
    if NamesRecord(db, db[p].tenant, tenant) {
      var r := Key(Tenants, db[p].tenant.value);
      assert r in Parents(p, db[p]) && r in OwnedIn(db, Tenants, tenant);
    }
  }

  lemma DeadProjectAt(db: Database, order: seq<Table>, n: nat, k: Key, tenant: Id)
    requires ProjectsLive(db) && Cascade(order) && n <= |order| == 16
    requires k in db && k.table == Users && db[k].project.Some?
    requires Users in TablesIn(order[..n]) <==> n >= 15
    requires Projects in TablesIn(order[..n]) <==> n >= 13
    requires Tenants in TablesIn(order[..n]) <==> n == 16
    ensures var p, now := Key(Projects, db[k].project.value), DeleteAll(db, order[..n], tenant);
            k in now && p !in now <==>
            && (Owned(db, k, tenant) ==> n < 15)
            && ((n >= 13 && Owned(db, p, tenant))
                || (n == 16 && p in db && NamesParent(p, db[p], OwnedIn(db, Tenants, tenant))))
  {
    DeadProjectIff(db, order, n, k, tenant);
  }

  predicate IsComposite(child: Table, parent: Table) {
    (child == RoleBindings || child == TotpSecrets) && parent != Tenants
  }

  /** The composite keys: bindings and authenticator secrets name users and roles of their own tenant. */
  ghost predicate SameTenantKeys(db: Database) {
    forall k, r :: k in db && r in Parents(k, db[k]) && r in db && IsComposite(k.table, r.table) ==>
      db[r].tenant == db[k].tenant
  }

  /**
  What can be taken along under the composite keys: a permission of the tenant held by someone else's
  role, and what hangs on a tenant record that carries the tenant's id in its second id column only.
  */
  lemma InboundIff(db: Database, k: Key, r: Key, tenant: Id)
    requires Intact(db) && SameTenantKeys(db) && k in db && r in Parents(k, db[k])
    ensures Inbound(db, k, r, tenant) <==>
      || (k.table == RolePermissions && r.table == Permissions
          && HasTenant(db, r, tenant) && !Selected(db, k, tenant))
      || (r.table == Tenants && HasTenant(db, r, tenant) && r.id != tenant)
  {
    assert r in db;
    ParentTables(k, db[k], r);
  }

  // ---------------------------------------------------------------- the outcome in terms of the columns

  /** The column names a row of the table that is there and has this tenant. */
  predicate NamesTenants(db: Database, table: Table, id: Option<Id>, tenant: Id) {
    id.Some? && Key(table, id.value) in db && db[Key(table, id.value)].tenant == Some(tenant)
  }

  /** The row carries the tenant, in its own column or in that of its role or its user. */
  ghost predicate Carries(db: Database, k: Key, tenant: Id)
    requires k in db
  {
    match k.table
    case RolePermissions => NamesTenants(db, Roles, db[k].role, tenant)
    case Sessions => NamesTenants(db, Users, db[k].user, tenant)
    case RefreshTokens => NamesTenants(db, Users, db[k].user, tenant)
    case UserGroups => NamesTenants(db, Users, db[k].user, tenant)
    case Tenants => k.id == tenant || db[k].tenant == Some(tenant)
    case RoleBindings => db[k].tenant == Some(tenant)
    case Roles => db[k].tenant == Some(tenant)
    case Permissions => db[k].tenant == Some(tenant)
    case ApiScopes => db[k].tenant == Some(tenant)
    case TotpSecrets => db[k].tenant == Some(tenant)
    case BackupCodes => db[k].tenant == Some(tenant)
    case WebauthnCredentials => db[k].tenant == Some(tenant)
    case OauthClients => db[k].tenant == Some(tenant)
    case Projects => db[k].tenant == Some(tenant)
    case TenantMappings => db[k].tenant == Some(tenant)
    case Users => db[k].tenant == Some(tenant)
  }

  /** A column of the row names, by a cascading key, a role, permission, user or tenant record that goes. */
  ghost predicate HangsOn(db: Database, k: Key, tenant: Id)
    requires k in db
  {
    match k.table
    case RolePermissions =>
      NamesTenants(db, Roles, db[k].role, tenant) || NamesTenants(db, Permissions, db[k].permission, tenant)
    case RoleBindings =>
      NamesTenants(db, Roles, db[k].role, tenant) || NamesTenants(db, Users, db[k].user, tenant)
    case TotpSecrets =>
      NamesTenants(db, Users, db[k].user, tenant) || NamesRecord(db, db[k].tenant, tenant)
    case Projects => NamesRecord(db, db[k].tenant, tenant)
    case _ => false
  }

  /** The column names a tenant record that has this tenant as its id or in its second id column. */
  predicate NamesRecord(db: Database, id: Option<Id>, tenant: Id) {
    id.Some? && Key(Tenants, id.value) in db
    && (id.value == tenant || db[Key(Tenants, id.value)].tenant == Some(tenant))
  }

  lemma OwnedByColumns(db: Database, k: Key, tenant: Id)
    requires k in db
    ensures Owned(db, k, tenant) <==> Carries(db, k, tenant)
  {}

  lemma HangsByColumns(db: Database, k: Key, tenant: Id)
    requires k in db
    ensures HangsOn(db, k, tenant) <==> exists r :: r in Parents(k, db[k]) && Owned(db, r, tenant)
  {
    var row := db[k];
    if HangsOn(db, k, tenant) {
      var r := HangingRow(db, k, tenant);
    }
    if r :| r in Parents(k, row) && Owned(db, r, tenant) {
      OwnedByColumns(db, r, tenant);
    }
  }

  lemma HangingRow(db: Database, k: Key, tenant: Id) returns (r: Key)
    requires k in db && HangsOn(db, k, tenant)
    ensures r in Parents(k, db[k]) && Owned(db, r, tenant)
  {
    var row := db[k];
    if (k.table == RolePermissions || k.table == RoleBindings) && NamesTenants(db, Roles, row.role, tenant) {
      r := Key(Roles, row.role.value);
    } else if k.table == RolePermissions {
      r := Key(Permissions, row.permission.value);
    } else if k.table != Projects && NamesTenants(db, Users, row.user, tenant) {
      r := Key(Users, row.user.value);
    } else {
      r := Key(Tenants, row.tenant.value);
    }
    OwnedByColumns(db, r, tenant);
  }

  /** A row is gone exactly when it carries the tenant or hangs on a row that does; all others are unchanged. */
  lemma GoneByColumns(db: Database, k: Key, tenant: Id)
    requires k in db
    ensures k !in DeleteAll(db, ORDER, tenant) <==> Carries(db, k, tenant) || HangsOn(db, k, tenant)
    ensures k in DeleteAll(db, ORDER, tenant) ==> DeleteAll(db, ORDER, tenant)[k] == db[k]
  {
    OrderIsCascade();
    GoneIff(db, ORDER, k, tenant);
    OwnedByColumns(db, k, tenant);
    HangsByColumns(db, k, tenant);
    if !Owned(db, k, tenant) {
      forall r ensures Inbound(db, k, r, tenant) <==> r in Parents(k, db[k]) && Owned(db, r, tenant) {}
    }
  }

  /**
  Of the tenant nothing is left: no row with its id in the tenant column, no tenant record under either
  id, and nothing of its users' sessions, tokens and memberships or of its roles' permissions.
  */
  lemma NothingLeft(db: Database, k: Key, tenant: Id)
    requires k in DeleteAll(db, ORDER, tenant)
    ensures k in db && k != Key(Tenants, tenant)
    ensures k.table !in {RolePermissions, Sessions, RefreshTokens, UserGroups} ==> db[k].tenant != Some(tenant)
    ensures k.table in {Sessions, RefreshTokens, UserGroups} ==> !NamesTenants(db, Users, db[k].user, tenant)
    ensures k.table in {RolePermissions, RoleBindings} ==> !NamesTenants(db, Roles, db[k].role, tenant)
    ensures k.table in {RoleBindings, TotpSecrets} ==> !NamesTenants(db, Users, db[k].user, tenant)
    ensures k.table == RolePermissions ==> !NamesTenants(db, Permissions, db[k].permission, tenant)
  {
    OrderIsCascade();
    DeleteAllIs(db, ORDER, tenant);
    GoneByColumns(db, k, tenant);
  }

  lemma OutcomeByColumns(db: Database, tenant: Id, counts: map<Table, nat>)
    requires forall t: Table :: t in counts && counts[t] == |OwnedIn(db, t, tenant)|
    ensures var after := DeleteAll(db, ORDER, tenant);
            && (forall k :: k in db ==> (k !in after <==> Carries(db, k, tenant) || HangsOn(db, k, tenant)))
            && (forall k :: k in after ==> k in db && after[k] == db[k])
    ensures forall t: Table :: counts[t] == |set k | k in db && k.table == t && Carries(db, k, tenant)|
  {
    var after := DeleteAll(db, ORDER, tenant);
    OrderIsCascade();
    DeleteAllIs(db, ORDER, tenant);
    forall k | k in db ensures k !in after <==> Carries(db, k, tenant) || HangsOn(db, k, tenant) {
      GoneByColumns(db, k, tenant);
    }
    forall t: Table ensures counts[t] == |set k | k in db && k.table == t && Carries(db, k, tenant)| {
      SharesByColumns(db, t, tenant);
    }
  }

  lemma SharesByColumns(db: Database, t: Table, tenant: Id)
    ensures OwnedIn(db, t, tenant) == set k | k in db && k.table == t && Carries(db, k, tenant)
  {
    forall k | k in db ensures Owned(db, k, tenant) <==> Carries(db, k, tenant) {
      OwnedByColumns(db, k, tenant);
    }
  }
}
