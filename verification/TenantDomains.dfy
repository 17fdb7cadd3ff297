/**
Custom domains of tenants: registration, verification, the primary domain, and the two reads that
resolve a host to a tenant.

Each SQL statement is one atomic step. The table has two unique indexes (one row per domain, one
primary row per tenant) that refuse statements. What the program itself guarantees, call by call, is
proved without them; what they add is when they refuse a statement of interleaved calls.
*/
module TenantDomains {
  import opened Options
  import opened Text

  type Id(==, !new) = string

  datatype Domain = Domain(
    tenant: Id,
    name: string,
    isPrimary: bool,
    isVerified: bool,
    token: string,
    txtName: string,
    txtValue: string,
    verifiedAt: Option<int>,
    lastCheckedAt: Option<int>,
    failureReason: Option<string>,
    createdAt: int,
    updatedAt: int,
    createdBy: Option<Id>,
    updatedBy: Option<Id>)

  type Table = map<Id, Domain>

  // ---------------------------------------------------------------- normal form of a domain

  function TrimDot(s: string): string {
    if s != "" && s[|s| - 1] == '.' then s[..|s| - 1] else s
  }

  function NormalizeDomain(domain: string): string {
    TrimDot(ToLower(TrimSpace(domain)))
  }

  /** After one final dot is dropped, another dot or white space would still be dropped. */
  predicate EndsTwice(s: string) {
    |s| >= 2 && s[|s| - 1] == '.' && (s[|s| - 2] == '.' || IsSpace(s[|s| - 2]))
  }

  lemma LowerSpace(c: char)
    ensures IsSpace(LowerChar(c)) <==> IsSpace(c)
    ensures LowerChar(LowerChar(c)) == LowerChar(c)
  {}

  lemma NormalIsLower(domain: string)
    ensures ToLower(NormalizeDomain(domain)) == NormalizeDomain(domain)
    ensures NormalizeDomain(domain) != "" ==> !IsSpace(NormalizeDomain(domain)[0])
  {
    var t := TrimSpace(domain);
    var n := NormalizeDomain(domain);
    forall i | 0 <= i < |n| ensures LowerChar(n[i]) == n[i] {
      LowerSpace(t[i]);
    }
    if n != "" {
      LowerSpace(t[0]);
    }
  }

  lemma TrimsNothingIff(s: string)
    requires s != "" && !IsSpace(s[0])
    ensures TrimSpace(s) == s <==> !IsSpace(s[|s| - 1])
  {}

  /** Normalizing twice is normalizing once, except for names that end in two dots or in space and dot. */
  lemma NormalizeIdempotentIff(domain: string)
    ensures NormalizeDomain(NormalizeDomain(domain)) == NormalizeDomain(domain)
       <==> !EndsTwice(ToLower(TrimSpace(domain)))
  {
    var lower := ToLower(TrimSpace(domain));
    var n := NormalizeDomain(domain);
    NormalIsLower(domain);
    if n != "" {
      LowerSpace(TrimSpace(domain)[|n| - 1]);
      if |TrimSpace(domain)| > 0 {
        LowerSpace(TrimSpace(domain)[|lower| - 1]);
      }
      TrimsNothingIff(n);
    }
  }

  lemma NormalizeTrimmed(left: string, core: string, right: string)
    requires AllSpace(left) && AllSpace(right) && core != "" && !IsSpace(core[0]) && !IsSpace(core[|core| - 1])
    ensures NormalizeDomain(left + core + right) == TrimDot(ToLower(core))
  {
    TrimPadded(left, core, right);
  }

  lemma NoFinalDot(s: string)
    requires s != "" && s[|s| - 1] != '.'
    ensures TrimDot(ToLower(s)) == ToLower(s)
  {
    assert ToLower(s)[|s| - 1] == LowerChar(s[|s| - 1]);
  }

  lemma DropsFinalDot(s: string)
    ensures TrimDot(ToLower(s + ".")) == ToLower(s)
  {
    var dotted := ToLower(s + ".");
    assert dotted[|s|] == LowerChar('.');
    assert dotted[..|s|] == ToLower(s);
  }

  lemma NormalizeDotted(left: string, core: string, right: string)
    requires AllSpace(left) && AllSpace(right) && core != "" && !IsSpace(core[0])
    ensures NormalizeDomain(left + (core + ".") + right) == ToLower(core)
  {
    var dotted := core + ".";
    assert dotted[0] == core[0] && dotted[|dotted| - 1] == '.';
    NormalizeTrimmed(left, dotted, right);
    DropsFinalDot(core);
  }

  /** The normal form of a padded name, with and without a final dot. */
  lemma NormalizePadded(left: string, core: string, right: string)
    requires AllSpace(left) && AllSpace(right)
    requires core != "" && !IsSpace(core[0]) && !IsSpace(core[|core| - 1]) && core[|core| - 1] != '.'
    ensures NormalizeDomain(left + core + right) == ToLower(core)
    ensures NormalizeDomain(left + core + "." + right) == ToLower(core)
  {
    NormalizeTrimmed(left, core, right);
    NoFinalDot(core);
    NormalizeDotted(left, core, right);
    assert left + core + "." == left + (core + ".");
  }

  // ---------------------------------------------------------------- statements

  datatype Op =
    | Insert(id: Id, row: Domain)
    | Verify(id: Id, author: Option<Id>, now: int)
    | UnsetPrimaries(tenant: Id, author: Option<Id>, now: int)
    | MarkPrimary(tenant: Id, id: Id, author: Option<Id>, now: int)
    | Delete(id: Id)
    | UpdateVerification(id: Id, isVerified: bool, reason: Option<string>, now: int)

  function NewDomain(tenant: Id, name: string, token: string, author: Option<Id>, now: int): Domain {
    Domain(tenant, name, false, false, token, "_authsec-challenge." + name, "authsec-domain-verification=" + token,
           None, None, None, now, now, author, None)
  }

  function Verified(d: Domain, author: Option<Id>, now: int): Domain {
    d.(isVerified := true, verifiedAt := Some(now), updatedAt := now, updatedBy := author)
  }

  function Checked(d: Domain, isVerified: bool, reason: Option<string>, now: int): Domain {
    d.(isVerified := isVerified, lastCheckedAt := Some(now), failureReason := reason, updatedAt := now)
  }

  /** What a statement does to a table without indexes. */
  function Bare(t: Table, op: Op): Table {
    match op
    case Insert(id, row) => t[id := row]
    case Verify(id, author, now) =>
      if id in t then t[id := Verified(t[id], author, now)] else t
    case UnsetPrimaries(tenant, author, now) =>
      map id | id in t ::
        if t[id].tenant == tenant && t[id].isPrimary
        then t[id].(isPrimary := false, updatedAt := now, updatedBy := author) else t[id]
    case MarkPrimary(tenant, id, author, now) =>
      if id in t && t[id].tenant == tenant
      then t[id := t[id].(isPrimary := true, updatedAt := now, updatedBy := author)] else t
    case Delete(id) => t - {id}
    case UpdateVerification(id, isVerified, reason, now) =>
      if id in t then t[id := Checked(t[id], isVerified, reason, now)] else t
  }

  predicate NameTaken(t: Table, name: string) {
    exists id :: id in t && t[id].name == name
  }

  /** The partial unique index: another row of the tenant is already primary. */
  predicate PrimaryTaken(t: Table, tenant: Id, id: Id) {
    exists other :: other in t && other != id && t[other].tenant == tenant && t[other].isPrimary
  }

  /** The statement would break the primary key or one of the two unique indexes. */
  predicate Refused(t: Table, op: Op) {
    match op
    case Insert(id, row) => id in t || NameTaken(t, row.name)
    case MarkPrimary(tenant, id, _, _) => id in t && t[id].tenant == tenant && PrimaryTaken(t, tenant, id)
    case _ => false
  }

  function Step(t: Table, op: Op): Table {
    if Refused(t, op) then t else Bare(t, op)
  }

  // ---------------------------------------------------------------- calls

  datatype Outcome = Created | EmptyDomain | InvalidFormat | ClaimedByOther | AlreadyRegistered

  /** The program's own checks of a new domain; it does not look for the tenant's own rows. */
  function CheckDomain(t: Table, tenant: Id, name: string): Outcome {
    if name == "" then EmptyDomain
    else if '/' in name || '\\' in name || '*' in name then InvalidFormat
    else if exists id :: id in t && t[id].name == name && t[id].tenant != tenant then ClaimedByOther
    else Created
  }

  /** The answer of CreateDomain: the checks first, then the unique index on the domain. */
  function CreateOutcome(t: Table, tenant: Id, name: string): Outcome {
    if CheckDomain(t, tenant, name) == Created && NameTaken(t, name) then AlreadyRegistered
    else CheckDomain(t, tenant, name)
  }

  datatype Call =
    | CreateCall(id: Id, tenant: Id, raw: string, token: string, author: Option<Id>, now: int)
    | PrimaryCall(tenant: Id, id: Id, finished: bool, author: Option<Id>, now: int)
    | VerifyCall(id: Id, author: Option<Id>, now: int)
    | DeleteCall(id: Id)
    | StatusCall(id: Id, isVerified: bool, reason: Option<string>, now: int)

  /** A whole call against a table without indexes; SetPrimaryDomain may stop between its two updates. */
  function BareCall(t: Table, c: Call): Table {
    match c
    case CreateCall(id, tenant, raw, token, author, now) =>
      var name := NormalizeDomain(raw);
      if CheckDomain(t, tenant, name) != Created then t
      else Bare(t, Insert(id, NewDomain(tenant, name, token, author, now)))
    case PrimaryCall(tenant, id, finished, author, now) =>
      var unset := Bare(t, UnsetPrimaries(tenant, author, now));
      if finished then Bare(unset, MarkPrimary(tenant, id, author, now)) else unset
    case VerifyCall(id, author, now) => Bare(t, Verify(id, author, now))
    case DeleteCall(id) => Bare(t, Delete(id))
    case StatusCall(id, isVerified, reason, now) => Bare(t, UpdateVerification(id, isVerified, reason, now))
  }

  function BareRun(calls: seq<Call>): Table {
    if calls == [] then map[] else BareCall(BareRun(calls[..|calls| - 1]), calls[|calls| - 1])
  }

  // ---------------------------------------------------------------- what the program guarantees by itself

  ghost predicate OneTenantPerName(t: Table) {
    forall a, b :: a in t && b in t && t[a].name == t[b].name ==> t[a].tenant == t[b].tenant
  }

  ghost predicate OnePrimaryPerTenant(t: Table) {
    forall a, b :: a in t && b in t && t[a].isPrimary && t[b].isPrimary && t[a].tenant == t[b].tenant ==> a == b
  }

  /** Statements that neither insert nor mark can only clear marks, and never move a name to another tenant. */
  lemma HarmlessKeeps(t: Table, op: Op)
    requires OneTenantPerName(t) && OnePrimaryPerTenant(t) && !op.Insert? && !op.MarkPrimary?
    ensures OneTenantPerName(Bare(t, op)) && OnePrimaryPerTenant(Bare(t, op))
  {}

  lemma InsertKeeps(t: Table, id: Id, row: Domain)
    requires OneTenantPerName(t) && OnePrimaryPerTenant(t) && !row.isPrimary
    requires forall a :: a in t && t[a].name == row.name ==> t[a].tenant == row.tenant
    ensures OneTenantPerName(t[id := row]) && OnePrimaryPerTenant(t[id := row])
  {}

  /** After the first update of SetPrimaryDomain, the second makes its domain the only primary. */
  lemma MarkAfterUnset(t: Table, tenant: Id, id: Id, author: Option<Id>, now: int)
    requires OneTenantPerName(t) && OnePrimaryPerTenant(t)
    requires forall a :: a in t && t[a].tenant == tenant ==> !t[a].isPrimary
    ensures var t' := Bare(t, MarkPrimary(tenant, id, author, now)); OneTenantPerName(t') && OnePrimaryPerTenant(t')
  {}

  lemma CallKeeps(t: Table, c: Call)
    requires OneTenantPerName(t) && OnePrimaryPerTenant(t)
    ensures OneTenantPerName(BareCall(t, c)) && OnePrimaryPerTenant(BareCall(t, c))
  {
    match c {
      case CreateCall(id, tenant, raw, token, author, now) =>
        var name := NormalizeDomain(raw);
        if CheckDomain(t, tenant, name) == Created {
          InsertKeeps(t, id, NewDomain(tenant, name, token, author, now));
        }
      case PrimaryCall(tenant, id, finished, author, now) =>
        HarmlessKeeps(t, UnsetPrimaries(tenant, author, now));
        MarkAfterUnset(Bare(t, UnsetPrimaries(tenant, author, now)), tenant, id, author, now);
      case VerifyCall(id, author, now) => HarmlessKeeps(t, Verify(id, author, now));
      case DeleteCall(id) => HarmlessKeeps(t, Delete(id));
      case StatusCall(id, isVerified, reason, now) => HarmlessKeeps(t, UpdateVerification(id, isVerified, reason, now));
    }
  }

  /**
  With no index at all, every sequential run of calls, those that stop half way included, keeps each
  domain with one tenant and each tenant with at most one primary domain.
  */
  lemma {:induction false} SequentialRunsKeep(calls: seq<Call>)
    ensures OneTenantPerName(BareRun(calls)) && OnePrimaryPerTenant(BareRun(calls))
  {
    if calls != [] {
      SequentialRunsKeep(calls[..|calls| - 1]);
      CallKeeps(BareRun(calls[..|calls| - 1]), calls[|calls| - 1]);
    }
  }

  // ---------------------------------------------------------------- when an index refuses

  /** What the indexes keep whatever runs. */
  ghost predicate Valid(t: Table) {
    (forall a, b :: a in t && b in t && t[a].name == t[b].name ==> a == b) && OnePrimaryPerTenant(t)
  }

  lemma StepValid(t: Table, op: Op)
    requires Valid(t) && (op.Insert? ==> !op.row.isPrimary)
    ensures Valid(Step(t, op))
  {}

  lemma PrimaryCallSpelled(t: Table, tenant: Id, id: Id, author: Option<Id>, now: int)
    ensures var t' := BareCall(t, PrimaryCall(tenant, id, true, author, now));
            && t'.Keys == t.Keys
            && forall a :: a in t' ==>
                 t'[a] == if t[a].tenant == tenant && (a == id || t[a].isPrimary)
                          then t[a].(isPrimary := a == id, updatedAt := now, updatedBy := author)
                          else t[a]
  {}

  /** On its own, a call never meets the index on primary domains. */
  lemma PrimaryCallSteps(t: Table, tenant: Id, id: Id, author: Option<Id>, now: int)
    requires Valid(t)
    ensures var unset := Step(t, UnsetPrimaries(tenant, author, now));
            && (id in unset && unset[id].tenant == tenant <==> id in t && t[id].tenant == tenant)
            && Step(unset, MarkPrimary(tenant, id, author, now))
               == BareCall(t, PrimaryCall(tenant, id, true, author, now))
            && Valid(Step(unset, MarkPrimary(tenant, id, author, now)))
  {
    var unset := Step(t, UnsetPrimaries(tenant, author, now));
    StepValid(t, UnsetPrimaries(tenant, author, now));
    assert !PrimaryTaken(unset, tenant, id);
    StepValid(unset, MarkPrimary(tenant, id, author, now));
  }

  function Exec(ops: seq<Op>): Table {
    if ops == [] then map[] else Step(Exec(ops[..|ops| - 1]), ops[|ops| - 1])
  }

  lemma ExecNext(ops: seq<Op>, k: nat)
    requires k < |ops|
    ensures Exec(ops[..k + 1]) == Step(Exec(ops[..k]), ops[k])
  {
    assert ops[..k + 1][..k] == ops[..k];
  }

  predicate PrimaryAt(t: Table, tenant: Id, id: Id) {
    id in t && t[id].tenant == tenant && t[id].isPrimary
  }

  predicate Marks(t: Table, op: Op, tenant: Id, id: Id) {
    op.MarkPrimary? && op.tenant == tenant && op.id == id && id in t && t[id].tenant == tenant && !Refused(t, op)
  }

  predicate Clears(op: Op, tenant: Id, id: Id) {
    (op.UnsetPrimaries? && op.tenant == tenant) || (op.Delete? && op.id == id)
  }

  ghost predicate InsertsPlain(ops: seq<Op>) {
    forall i :: 0 <= i < |ops| && ops[i].Insert? ==> !ops[i].row.isPrimary
  }

  /** A row is primary after a statement if the statement marks it, or it was primary and is not cleared. */
  lemma PrimaryAfter(t: Table, op: Op, tenant: Id, id: Id)
    requires op.Insert? ==> !op.row.isPrimary
    ensures PrimaryAt(Step(t, op), tenant, id) <==>
            Marks(t, op, tenant, id) || (PrimaryAt(t, tenant, id) && !Clears(op, tenant, id))
  {}

  /** The k-th statement marked the row, and none up to the j-th has cleared it. */
  ghost predicate MarkedSince(ops: seq<Op>, k: int, j: nat, tenant: Id, id: Id)
    requires j <= |ops|
  {
    && 0 <= k < j && Marks(Exec(ops[..k]), ops[k], tenant, id)
    && forall m :: k < m < j ==> !Clears(ops[m], tenant, id)
  }

  ghost predicate MarkedBetween(ops: seq<Op>, i: nat, j: nat, tenant: Id, id: Id)
    requires j <= |ops|
  {
    exists k :: i < k < j && MarkedSince(ops, k, j, tenant, id)
  }

  /** After a clearing of the tenant, a row is primary exactly when it has been marked since and not cleared again. */
  lemma {:induction false} PrimaryIff(ops: seq<Op>, i: nat, j: nat, tenant: Id, id: Id)
    requires i < j <= |ops| && InsertsPlain(ops) && ops[i].UnsetPrimaries? && ops[i].tenant == tenant
    ensures PrimaryAt(Exec(ops[..j]), tenant, id) <==> MarkedBetween(ops, i, j, tenant, id)
    decreases j
  {
    ExecNext(ops, j - 1);
    PrimaryAfter(Exec(ops[..j - 1]), ops[j - 1], tenant, id);
    if j > i + 1 {
      PrimaryIff(ops, i, j - 1, tenant, id);
      MarkedLonger(ops, i, j - 1, tenant, id);
    }
  }

  lemma MarkedLonger(ops: seq<Op>, i: nat, n: nat, tenant: Id, id: Id)
    requires i < n < |ops|
    ensures MarkedBetween(ops, i, n + 1, tenant, id) <==>
            || Marks(Exec(ops[..n]), ops[n], tenant, id)
            || (MarkedBetween(ops, i, n, tenant, id) && !Clears(ops[n], tenant, id))
  {
    if MarkedBetween(ops, i, n + 1, tenant, id) {
      var k :| i < k < n + 1 && MarkedSince(ops, k, n + 1, tenant, id);
      MarkedOneMore(ops, k, n, tenant, id);
    }
    MarkedOneMore(ops, n, n, tenant, id);
    if MarkedBetween(ops, i, n, tenant, id) {
      var k :| i < k < n && MarkedSince(ops, k, n, tenant, id);
      MarkedOneMore(ops, k, n, tenant, id);
    }
  }

  lemma MarkedOneMore(ops: seq<Op>, k: nat, n: nat, tenant: Id, id: Id)
    requires k <= n < |ops|
    ensures MarkedSince(ops, k, n + 1, tenant, id) <==>
            if k == n then Marks(Exec(ops[..n]), ops[n], tenant, id)
            else MarkedSince(ops, k, n, tenant, id) && !Clears(ops[n], tenant, id)
  {}

  /**
  However calls interleave, the second update of a SetPrimaryDomain call is refused exactly when the
  domain is the tenant's and since the first update another call has marked another domain of the
  tenant and no call has cleared that mark.
  */
  lemma SecondUpdateRefusedIff(ops: seq<Op>, i: nat, j: nat)
    requires i < j < |ops| && InsertsPlain(ops) && ops[i].UnsetPrimaries?
    requires ops[j].MarkPrimary? && ops[j].tenant == ops[i].tenant
    ensures Refused(Exec(ops[..j]), ops[j]) <==>
            && ops[j].id in Exec(ops[..j]) && Exec(ops[..j])[ops[j].id].tenant == ops[j].tenant
            && exists other :: other != ops[j].id && MarkedBetween(ops, i, j, ops[j].tenant, other)
  {
    var t, tenant, id := Exec(ops[..j]), ops[j].tenant, ops[j].id;
    if Refused(t, ops[j]) {
      var other :| other in t && other != id && t[other].tenant == tenant && t[other].isPrimary;
      PrimaryIff(ops, i, j, tenant, other);
    }
    if other :| other != id && MarkedBetween(ops, i, j, tenant, other) {
      PrimaryIff(ops, i, j, tenant, other);
      assert PrimaryAt(t, tenant, other);
    }
  }

  /** The k-th statement inserted a row of this name, and none up to the j-th has deleted it. */
  ghost predicate InsertedSince(ops: seq<Op>, k: int, j: nat, name: string)
    requires j <= |ops|
  {
    && 0 <= k < j && ops[k].Insert? && ops[k].row.name == name && !Refused(Exec(ops[..k]), ops[k])
    && forall m :: k < m < j ==> !(ops[m].Delete? && ops[m].id == ops[k].id)
  }

  predicate Holds(t: Table, id: Id, name: string) {
    id in t && t[id].name == name
  }

  lemma HoldsAfter(t: Table, op: Op, id: Id, name: string)
    ensures Holds(Step(t, op), id, name) <==>
            || (op.Insert? && op.id == id && op.row.name == name && !Refused(t, op))
            || (Holds(t, id, name) && !(op.Delete? && op.id == id))
  {}

  ghost predicate InsertedBetween(ops: seq<Op>, i: nat, j: nat, id: Id, name: string)
    requires j <= |ops|
  {
    exists k :: i <= k < j && InsertedSince(ops, k, j, name) && ops[k].id == id
  }

  lemma {:induction false} HoldsIff(ops: seq<Op>, i: nat, j: nat, id: Id, name: string)
    requires i <= j <= |ops| && !Holds(Exec(ops[..i]), id, name)
    ensures Holds(Exec(ops[..j]), id, name) <==> InsertedBetween(ops, i, j, id, name)
    decreases j
  {
    if i == j {
      assert !InsertedBetween(ops, i, j, id, name);
    } else {
      HoldsIff(ops, i, j - 1, id, name);
      HoldsOneMore(ops, i, j - 1, id, name);
    }
  }

  lemma HoldsOneMore(ops: seq<Op>, i: nat, n: nat, id: Id, name: string)
    requires i <= n < |ops| && (Holds(Exec(ops[..n]), id, name) <==> InsertedBetween(ops, i, n, id, name))
    ensures Holds(Exec(ops[..n + 1]), id, name) <==> InsertedBetween(ops, i, n + 1, id, name)
  {
    ExecNext(ops, n);
    HoldsAfter(Exec(ops[..n]), ops[n], id, name);
    InsertedLonger(ops, i, n, id, name);
  }

  lemma InsertedLonger(ops: seq<Op>, i: nat, n: nat, id: Id, name: string)
    requires i <= n < |ops|
    ensures InsertedBetween(ops, i, n + 1, id, name) <==>
            || (ops[n].Insert? && ops[n].id == id && ops[n].row.name == name && !Refused(Exec(ops[..n]), ops[n]))
            || (InsertedBetween(ops, i, n, id, name) && !(ops[n].Delete? && ops[n].id == id))
  {
    if InsertedBetween(ops, i, n + 1, id, name) {
      var k :| i <= k < n + 1 && InsertedSince(ops, k, n + 1, name) && ops[k].id == id;
      InsertedOneMore(ops, k, n, name);
    }
    InsertedOneMore(ops, n, n, name);
    if InsertedBetween(ops, i, n, id, name) {
      var k :| i <= k < n && InsertedSince(ops, k, n, name) && ops[k].id == id;
      InsertedOneMore(ops, k, n, name);
    }
  }

  lemma InsertedOneMore(ops: seq<Op>, k: nat, n: nat, name: string)
    requires k <= n < |ops|
    ensures InsertedSince(ops, k, n + 1, name) <==>
            if k == n then ops[n].Insert? && ops[n].row.name == name && !Refused(Exec(ops[..n]), ops[n])
            else InsertedSince(ops, k, n, name) && !(ops[n].Delete? && ops[n].id == ops[k].id)
  {}

  /**
  An insert whose check found the name free is refused, under a new id, exactly when a concurrent call
  has inserted the name since and no call has deleted that row.
  */
  lemma InsertRefusedIff(ops: seq<Op>, i: nat, j: nat)
    requires i <= j < |ops| && ops[j].Insert? && !NameTaken(Exec(ops[..i]), ops[j].row.name)
    requires ops[j].id !in Exec(ops[..j])
    ensures Refused(Exec(ops[..j]), ops[j]) <==> exists id :: InsertedBetween(ops, i, j, id, ops[j].row.name)
  {
    var t, name := Exec(ops[..j]), ops[j].row.name;
    if Refused(t, ops[j]) {
      var id :| id in t && t[id].name == name;
      assert !Holds(Exec(ops[..i]), id, name);
      HoldsIff(ops, i, j, id, name);
      assert Holds(t, id, name);
    }
    if id :| InsertedBetween(ops, i, j, id, name) {
      assert !Holds(Exec(ops[..i]), id, name);
      HoldsIff(ops, i, j, id, name);
      assert Holds(t, id, name);
    }
  }

  // ---------------------------------------------------------------- reads

  ghost predicate ResolvesTo(t: Table, hostname: string, id: Id) {
    id in t && t[id].name == NormalizeDomain(hostname) && t[id].isVerified
  }

  predicate IsOwned(t: Table, tenant: Id, hostname: string) {
    exists id :: id in t && t[id].tenant == tenant && t[id].name == NormalizeDomain(hostname) && t[id].isVerified
  }

  ghost predicate SameElsewhere(t: Table, t': Table, id: Id) {
    forall a :: a != id ==> (a in t <==> a in t') && (a in t ==> t'[a] == t[a])
  }

  lemma OneRowFewer(t: Table, id: Id)
    requires id in t
    ensures |t| == |t - {id}| + 1
  {
    DeletedRowsCount(t, {id});
  }

  class TenantDomainsRepository {
    var rows: Table

    constructor ()
      ensures rows == map[]
    {
      rows := map[];
    }

    method CreateDomain(id: Id, tenant: Id, raw: string, token: string, author: Option<Id>, now: int)
      returns (outcome: Outcome)
      requires Valid(rows) && id !in rows
      modifies this
      ensures Valid(rows) && SameElsewhere(old(rows), rows, id)
      ensures outcome == CreateOutcome(old(rows), tenant, NormalizeDomain(raw))
      ensures outcome == EmptyDomain <==> NormalizeDomain(raw) == ""
      ensures outcome == InvalidFormat <==>
        exists c :: c in NormalizeDomain(raw) && (c == '/' || c == '\\' || c == '*')
      ensures outcome == ClaimedByOther ==>
        exists a :: a in old(rows) && old(rows)[a].name == NormalizeDomain(raw) && old(rows)[a].tenant != tenant
      ensures outcome == AlreadyRegistered ==>
        exists a :: a in old(rows) && old(rows)[a].name == NormalizeDomain(raw) && old(rows)[a].tenant == tenant
      ensures outcome == Created ==> forall a :: a in old(rows) ==> old(rows)[a].name != NormalizeDomain(raw)
      ensures outcome == Created <==> id in rows
      ensures outcome == Created ==> var d := rows[id];
                && d.tenant == tenant && d.name == NormalizeDomain(raw) && !d.isPrimary && !d.isVerified
                && d.token == token && d.createdBy == author && d.createdAt == d.updatedAt == now
                && d.txtName == "_authsec-challenge." + NormalizeDomain(raw)
                && d.txtValue == "authsec-domain-verification=" + token
    {
      var name := NormalizeDomain(raw);
      if name == "" {
        return EmptyDomain;
      }
      if '/' in name || '\\' in name || '*' in name {
        return InvalidFormat;
      }
      var claims := set a | a in rows && rows[a].name == name;
      assert forall a :: a in rows && rows[a].name == name ==> a in claims;
      if claims != {} {
        var a :| a in claims;
        if rows[a].tenant != tenant {
          return ClaimedByOther;
        }
        assert NameTaken(rows, name);
      }
      var insert := Insert(id, NewDomain(tenant, name, token, author, now));
      StepValid(rows, insert);
      if Refused(rows, insert) {
        return AlreadyRegistered;
      }
      rows := Step(rows, insert);
      outcome := Created;
    }

    method GetDomainByHostname(hostname: string) returns (found: Option<Domain>)
      ensures found.None? <==> forall id :: !ResolvesTo(rows, hostname, id)
      ensures found.Some? ==> exists id :: ResolvesTo(rows, hostname, id) && rows[id] == found.value
      ensures found.Some? ==> found.value.isVerified && found.value.name == NormalizeDomain(hostname)
      ensures found.None? ==>
        forall id :: id in rows && rows[id].isVerified ==> rows[id].name != NormalizeDomain(hostname)
    {
      var name := NormalizeDomain(hostname);
      var matches := set id | id in rows && rows[id].name == name && rows[id].isVerified;
      assert forall id :: ResolvesTo(rows, hostname, id) ==> id in matches;
      if matches == {} {
        forall id | id in rows && rows[id].isVerified ensures rows[id].name != name {
          assert !ResolvesTo(rows, hostname, id);
        }
        return None;
      }
      var id :| id in matches;
      assert ResolvesTo(rows, hostname, id);
      found := Some(rows[id]);
    }

    method IsDomainOwnedByTenant(tenant: Id, hostname: string) returns (owned: bool)
      ensures owned == IsOwned(rows, tenant, hostname)
      ensures owned <==> exists id :: ResolvesTo(rows, hostname, id) && rows[id].tenant == tenant
    {
      var name := NormalizeDomain(hostname);
      var matches := set id | id in rows && rows[id].tenant == tenant && rows[id].name == name && rows[id].isVerified;
      owned := |matches| > 0;
      if owned {
        ghost var id :| id in matches;
        assert ResolvesTo(rows, hostname, id);
      } else {
        assert forall id :: ResolvesTo(rows, hostname, id) && rows[id].tenant == tenant ==> id in matches;
      }
    }

    /** From then on every host with the domain's normal form resolves to it. */
    method VerifyDomain(id: Id, author: Option<Id>, now: int) returns (ok: bool)
      modifies this
      ensures ok == (id in old(rows)) && SameElsewhere(old(rows), rows, id)
      ensures rows == Step(old(rows), Verify(id, author, now)) == BareCall(old(rows), VerifyCall(id, author, now))
      ensures ok ==> forall hostname ::
        ResolvesTo(rows, hostname, id) <==> NormalizeDomain(hostname) == old(rows)[id].name
      ensures ok ==> rows[id].verifiedAt == Some(now) && rows[id].updatedBy == author && rows[id].updatedAt == now
                     && rows[id].tenant == old(rows)[id].tenant && rows[id].isPrimary == old(rows)[id].isPrimary
    {
      ok := id in rows;
      if ok {
        rows := rows[id := Verified(rows[id], author, now)];
      }
    }

    /** From then on no host resolves to it. */
    method DeleteDomain(id: Id) returns (ok: bool)
      modifies this
      ensures ok == (id in old(rows)) && SameElsewhere(old(rows), rows, id)
      ensures rows == Step(old(rows), Delete(id)) == BareCall(old(rows), DeleteCall(id))
      ensures forall hostname :: !ResolvesTo(rows, hostname, id)
      ensures ok ==> |old(rows)| == |rows| + 1
    {
      ok := id in rows;
      if ok {
        OneRowFewer(rows, id);
      }
      assert Step(rows, Delete(id)) == rows - {id};
      rows := rows - {id};
    }

    /** Hosts resolve to the domain afterwards exactly when the check succeeded. */
    method UpdateVerificationStatus(id: Id, isVerified: bool, reason: Option<string>, now: int) returns (ok: bool)
      modifies this
      ensures ok == (id in old(rows)) && SameElsewhere(old(rows), rows, id)
      ensures rows == Step(old(rows), UpdateVerification(id, isVerified, reason, now))
      ensures rows == BareCall(old(rows), StatusCall(id, isVerified, reason, now))
      ensures ok ==> forall hostname ::
        ResolvesTo(rows, hostname, id) <==> isVerified && NormalizeDomain(hostname) == old(rows)[id].name
      ensures ok ==> rows[id].lastCheckedAt == Some(now) && rows[id].updatedAt == now
                     && rows[id].failureReason == reason && rows[id].verifiedAt == old(rows)[id].verifiedAt
    {
      ok := id in rows;
      if ok {
        rows := rows[id := Checked(rows[id], isVerified, reason, now)];
      }
    }

    /**
    Two updates. When the second finds no row, the first has already taken the tenant's primary
    mark away; on its own it never meets the index on primary domains.
    */
    method SetPrimaryDomain(tenant: Id, id: Id, author: Option<Id>, now: int) returns (ok: bool)
      requires Valid(rows)
      modifies this
      ensures Valid(rows)
      ensures ok <==> id in old(rows) && old(rows)[id].tenant == tenant
      ensures rows == BareCall(old(rows), PrimaryCall(tenant, id, true, author, now))
      ensures rows.Keys == old(rows).Keys
      ensures forall a :: a in rows && rows[a].tenant == tenant ==> (rows[a].isPrimary <==> ok && a == id)
      ensures forall a :: a in rows ==>
        rows[a] == if old(rows)[a].tenant == tenant && (a == id || old(rows)[a].isPrimary)
                   then old(rows)[a].(isPrimary := a == id, updatedAt := now, updatedBy := author)
                   else old(rows)[a]
    {
      PrimaryCallSteps(rows, tenant, id, author, now);
      PrimaryCallSpelled(rows, tenant, id, author, now);
      rows := Step(rows, UnsetPrimaries(tenant, author, now));
      ok := id in rows && rows[id].tenant == tenant;
      rows := Step(rows, MarkPrimary(tenant, id, author, now));
    }
  }

  /** Where a name has one tenant, a tenant owns a host exactly when the host resolves, and only to that tenant. */
  lemma OwnedIffResolved(t: Table, tenant: Id, hostname: string)
    requires OneTenantPerName(t)
    ensures IsOwned(t, tenant, hostname) <==>
            && (exists id :: ResolvesTo(t, hostname, id))
            && (forall id :: ResolvesTo(t, hostname, id) ==> t[id].tenant == tenant)
  {
    if IsOwned(t, tenant, hostname) {
      var id :| id in t && t[id].tenant == tenant && t[id].name == NormalizeDomain(hostname) && t[id].isVerified;
      assert ResolvesTo(t, hostname, id);
    }
  }

  /** So it is in every sequential run of calls, by the program's own checks. */
  lemma OwnedIffResolvedInRuns(calls: seq<Call>, tenant: Id, hostname: string)
    ensures IsOwned(BareRun(calls), tenant, hostname) <==>
            && (exists id :: ResolvesTo(BareRun(calls), hostname, id))
            && (forall id :: ResolvesTo(BareRun(calls), hostname, id) ==> BareRun(calls)[id].tenant == tenant)
  {
    SequentialRunsKeep(calls);
    OwnedIffResolved(BareRun(calls), tenant, hostname);
  }

  /** A domain registered under one spelling and verified is found under every spelling of the same name. */
  lemma RegisteredIsResolved(t: Table, c: Call, author: Option<Id>, now: int, hostname: string)
    requires c.CreateCall? && c.id !in t && CreateOutcome(t, c.tenant, NormalizeDomain(c.raw)) == Created
    ensures var t' := Step(BareCall(t, c), Verify(c.id, author, now));
            NormalizeDomain(hostname) == NormalizeDomain(c.raw) <==> ResolvesTo(t', hostname, c.id)
  {}
}
