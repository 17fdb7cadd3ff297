/**
The `device_codes` table of the device authorization grant (RFC 8628), the statements that change
it, and what every run of them keeps. Each SQL statement is one atomic step; times are Unix seconds.
*/
module DeviceCodes {
  import opened Options
  import opened UserCodes

  datatype Status = Pending | Authorized | Denied | Expired | Consumed

  /** Columns that are written once, at creation. */
  datatype Details = Details(verificationUri: string, verificationUriComplete: string, scopes: seq<string>,
                             deviceInfo: string)

  datatype DeviceCode = DeviceCode(
    deviceCode: string,
    userCode: string,
    details: Details,
    tenantId: Option<string>,
    clientId: Option<string>,
    userId: Option<string>,
    userEmail: Option<string>,
    tenantDomain: Option<string>,
    accessToken: Option<string>,
    status: Status,
    expiresAt: int,
    lastPolledAt: Option<int>,
    authorizedAt: Option<int>,
    createdAt: int,
    updatedAt: int)
  {
    predicate IsExpired(now: int) {
      now > expiresAt
    }

    predicate IsPending(now: int) {
      status == Pending && !IsExpired(now)
    }
  }

  /** The columns a new row is inserted with; all others start NULL. */
  datatype NewCode = NewCode(deviceCode: string, userCode: string, details: Details, tenantId: Option<string>,
                             clientId: Option<string>, status: Status, expiresAt: int)

  /** Who authorizes: taken from the browser session, with the token generated for it. */
  datatype Grant = Grant(userId: string, userEmail: string, tenantId: string, tenantDomain: string,
                         clientId: Option<string>, accessToken: string)

  datatype Op =
    | Create(code: NewCode, now: int)
    | Poll(deviceCode: string, minInterval: int, now: int)
    | Authorize(userCode: string, grant: Grant, approve: bool, now: int)
    | UpdateStatus(deviceCode: string, status: Status, now: int)
    | ExpireOld(now: int)
    | ExpireTenant(tenant: string, now: int)
    | DeleteExpired(olderThan: int, now: int)

  /** Rows by device code, which a unique index makes a key. */
  type Table = map<string, DeviceCode>

  // ---------------------------------------------------------------- statements

  predicate CanPoll(r: DeviceCode, minInterval: int, now: int) {
    r.lastPolledAt == None || r.lastPolledAt.value <= now - minInterval
  }

  predicate CanAuthorize(r: DeviceCode, typed: string) {
    StripHyphens(r.userCode) == StripHyphens(typed) && r.status == Pending
  }

  predicate IsStale(r: DeviceCode, now: int) {
    r.status == Pending && r.expiresAt < now
  }

  predicate IsDeletable(r: DeviceCode, cutoff: int) {
    (r.status == Expired || r.status == Consumed || r.status == Denied) && r.expiresAt < cutoff
  }

  function WithGrant(r: DeviceCode, g: Grant, approve: bool, now: int): DeviceCode {
    r.(userId := Some(g.userId), userEmail := Some(g.userEmail), tenantId := Some(g.tenantId),
       tenantDomain := Some(g.tenantDomain), clientId := g.clientId, accessToken := Some(g.accessToken),
       status := if approve then Authorized else Denied, authorizedAt := Some(now), updatedAt := now)
  }

  function WithStatus(r: DeviceCode, status: Status, now: int): DeviceCode {
    r.(status := status, updatedAt := now)
  }

  /** What a statement does to one row: its new contents, or None when the row is deleted. */
  function Effect(r: DeviceCode, op: Op): Option<DeviceCode> {
    match op
    case Create(_, _) => Some(r)
    case Poll(code, minInterval, now) =>
      if r.deviceCode == code && CanPoll(r, minInterval, now)
      then Some(r.(lastPolledAt := Some(now), updatedAt := now)) else Some(r)
    case Authorize(typed, g, approve, now) =>
      if CanAuthorize(r, typed) then Some(WithGrant(r, g, approve, now)) else Some(r)
    case UpdateStatus(code, status, now) =>
      if r.deviceCode == code then Some(WithStatus(r, status, now)) else Some(r)
    case ExpireOld(now) =>
      if IsStale(r, now) then Some(WithStatus(r, Expired, now)) else Some(r)
    case ExpireTenant(tenant, now) =>
      if r.tenantId == Some(tenant) && IsStale(r, now) then Some(WithStatus(r, Expired, now)) else Some(r)
    case DeleteExpired(olderThan, now) =>
      if IsDeletable(r, now - olderThan) then None else Some(r)
  }

  function NewRow(c: NewCode, now: int): DeviceCode {
    DeviceCode(c.deviceCode, c.userCode, c.details, c.tenantId, c.clientId, None, None, None, None,
               c.status, c.expiresAt, None, None, now, now)
  }

  /** The two unique indexes refuse an insert that repeats a device code or a user code. */
  predicate Conflicts(t: Table, c: NewCode) {
    c.deviceCode in t || exists code :: code in t && t[code].userCode == c.userCode
  }

  function Rewritten(t: Table, op: Op): Table {
    map code | code in t && Effect(t[code], op).Some? :: Effect(t[code], op).value
  }

  function Step(t: Table, op: Op): Table {
    if op.Create? then
      if Conflicts(t, op.code) then t else t[op.code.deviceCode := NewRow(op.code, op.now)]
    else Rewritten(t, op)
  }

  ghost predicate Valid(t: Table) {
    && (forall code :: code in t ==> t[code].deviceCode == code)
    && (forall c, d :: c in t && d in t && t[c].userCode == t[d].userCode ==> c == d)
  }

  /** No statement rewrites either code of a row, its expiry, or what it was created with. */
  lemma EffectKeepsCodes(r: DeviceCode, op: Op)
    requires Effect(r, op).Some?
    ensures var r' := Effect(r, op).value;
            && r'.deviceCode == r.deviceCode && r'.userCode == r.userCode && r'.details == r.details
            && r'.expiresAt == r.expiresAt && r'.createdAt == r.createdAt
  {}

  lemma StepValid(t: Table, op: Op)
    requires Valid(t)
    ensures Valid(Step(t, op))
  {
    var t' := Step(t, op);
    if !op.Create? {
      forall code | code in t'
        ensures t'[code].deviceCode == t[code].deviceCode && t'[code].userCode == t[code].userCode
      {
        EffectKeepsCodes(t[code], op);
      }
    }
  }

  // ---------------------------------------------------------------- the repository

  class DeviceAuthRepository {
    var rows: Table

    constructor ()
      ensures rows == map[]
    {
      rows := map[];
    }

    method CreateDeviceCode(code: NewCode, now: int) returns (ok: bool)
      modifies this
      ensures ok == !Conflicts(old(rows), code)
      ensures rows == Step(old(rows), Create(code, now))
      ensures ok ==> var r := rows[code.deviceCode];
                     && r.userCode == code.userCode && r.status == code.status && r.expiresAt == code.expiresAt
                     && r.details == code.details && r.tenantId == code.tenantId && r.clientId == code.clientId
                     && r.userId == r.userEmail == r.tenantDomain == r.accessToken == None && r.lastPolledAt == None
    {
      ok := !Conflicts(rows, code);
      if ok {
        rows := rows[code.deviceCode := NewRow(code, now)];
      }
    }

    /** Any row whose user code matches the typed one, hyphens aside. */
    method FindByUserCode(typed: string) returns (found: Option<DeviceCode>)
      ensures found.None? <==> forall code :: code in rows ==> StripHyphens(rows[code].userCode) != StripHyphens(typed)
      ensures found.Some? ==> exists code :: code in rows && rows[code] == found.value
                                          && StripHyphens(found.value.userCode) == StripHyphens(typed)
    {
      var matches := set code | code in rows && StripHyphens(rows[code].userCode) == StripHyphens(typed);
      assert forall code :: code in rows && StripHyphens(rows[code].userCode) == StripHyphens(typed) ==>
        code in matches;
      if matches == {} {
        found := None;
      } else {
        var code :| code in matches;
        found := Some(rows[code]);
      }
    }

    /** Atomic check and update of the poll time; a missing row also reads as polled too soon. */
    method UpdateLastPolled(code: string, minInterval: int, now: int) returns (tooSoon: bool)
      requires Valid(rows)
      modifies this
      ensures rows == Step(old(rows), Poll(code, minInterval, now))
      ensures tooSoon <==> code in old(rows) ==>
        old(rows)[code].lastPolledAt.Some? && now < old(rows)[code].lastPolledAt.value + minInterval
      ensures tooSoon ==> rows == old(rows)
      ensures !tooSoon ==> rows == old(rows)[code := old(rows)[code].(lastPolledAt := Some(now), updatedAt := now)]
    {
      tooSoon := true;
      if code in rows && CanPoll(rows[code], minInterval, now) {
        rows := rows[code := rows[code].(lastPolledAt := Some(now), updatedAt := now)];
        tooSoon := false;
      }
    }

    method AuthorizeDeviceCode(typed: string, g: Grant, approve: bool, now: int) returns (ok: bool)
      modifies this
      ensures rows == Step(old(rows), Authorize(typed, g, approve, now)) && rows.Keys == old(rows).Keys
      ensures ok <==> exists code :: code in old(rows) && old(rows)[code].status.Pending?
                                     && StripHyphens(old(rows)[code].userCode) == StripHyphens(typed)
      ensures forall code :: code in old(rows) && rows[code] != old(rows)[code] ==>
        old(rows)[code].status.Pending? && StripHyphens(old(rows)[code].userCode) == StripHyphens(typed)
      ensures forall code :: code in old(rows) && old(rows)[code].status.Pending?
                             && StripHyphens(old(rows)[code].userCode) == StripHyphens(typed) ==>
        && rows[code].status == (if approve then Authorized else Denied)
        && rows[code].userId == Some(g.userId) && rows[code].userEmail == Some(g.userEmail)
        && rows[code].tenantId == Some(g.tenantId) && rows[code].tenantDomain == Some(g.tenantDomain)
        && rows[code].clientId == g.clientId && rows[code].accessToken == Some(g.accessToken)
        && rows[code].authorizedAt == Some(now) && rows[code].expiresAt == old(rows)[code].expiresAt
        && rows[code].lastPolledAt == old(rows)[code].lastPolledAt
    {
      var affected := set code | code in rows && CanAuthorize(rows[code], typed);
      rows := map code | code in rows ::
        if code in affected then WithGrant(rows[code], g, approve, now) else rows[code];
      ok := |affected| != 0;
      if ok {
        ghost var code :| code in affected;
        assert code in old(rows) && CanAuthorize(old(rows)[code], typed);
      } else {
        assert forall code :: code in old(rows) && CanAuthorize(old(rows)[code], typed) ==> code in affected;
      }
    }

    method SetStatus(code: string, status: Status, now: int)
      requires Valid(rows)
      modifies this
      ensures rows == Step(old(rows), UpdateStatus(code, status, now))
      ensures code in old(rows) ==> rows == old(rows)[code := old(rows)[code].(status := status, updatedAt := now)]
      ensures code !in old(rows) ==> rows == old(rows)
    {
      if code in rows {
        rows := rows[code := WithStatus(rows[code], status, now)];
      }
    }

    method MarkAsConsumed(code: string, now: int)
      requires Valid(rows)
      modifies this
      ensures rows == Step(old(rows), UpdateStatus(code, Consumed, now))
      ensures code in old(rows) ==> rows == old(rows)[code := old(rows)[code].(status := Consumed, updatedAt := now)]
      ensures code !in old(rows) ==> rows == old(rows)
    {
      SetStatus(code, Consumed, now);
    }

    method ExpireOldDeviceCodes(now: int) returns (affected: nat)
      modifies this
      ensures rows == Step(old(rows), ExpireOld(now)) && rows.Keys == old(rows).Keys
      ensures forall code :: code in rows ==>
        rows[code] == if old(rows)[code].status.Pending? && old(rows)[code].expiresAt < now
                      then old(rows)[code].(status := Expired, updatedAt := now) else old(rows)[code]
      ensures affected == |set code | code in old(rows) && rows[code] != old(rows)[code]|
    {
      var stale := set code | code in rows && IsStale(rows[code], now);
      rows := map code | code in rows ::
        if code in stale then WithStatus(rows[code], Expired, now) else rows[code];
      affected := |stale|;
      assert stale == set code | code in old(rows) && rows[code] != old(rows)[code];
    }

    method DeleteExpiredDeviceCodes(olderThan: int, now: int) returns (affected: nat)
      modifies this
      ensures rows == Step(old(rows), DeleteExpired(olderThan, now))
      ensures forall code :: code in rows <==>
        && code in old(rows)
        && (old(rows)[code].status.Pending? || old(rows)[code].status.Authorized?
            || now - olderThan <= old(rows)[code].expiresAt)
      ensures forall code :: code in rows ==> rows[code] == old(rows)[code]
      ensures |old(rows)| == |rows| + affected
    {
      var doomed := set code | code in rows && IsDeletable(rows[code], now - olderThan);
      DeletedRowsCount(rows, doomed);
      rows := rows - doomed;
      affected := |doomed|;
    }

    /** The first statement of a listing. */
    method ExpireTenantDeviceCodes(tenant: string, now: int)
      modifies this
      ensures rows == Step(old(rows), ExpireTenant(tenant, now)) && rows.Keys == old(rows).Keys
      ensures forall code :: code in rows ==>
        rows[code] == if old(rows)[code].tenantId == Some(tenant) && old(rows)[code].status.Pending?
                         && old(rows)[code].expiresAt < now
                      then old(rows)[code].(status := Expired, updatedAt := now) else old(rows)[code]
    {
      rows := map code | code in rows ::
        if rows[code].tenantId == Some(tenant) && IsStale(rows[code], now)
        then WithStatus(rows[code], Expired, now) else rows[code];
    }

    /** Expires the tenant's stale rows, then lists its pending ones, newest first. */
    method ListPendingDeviceCodes(tenant: string, client: Option<string>, now: int) returns (codes: seq<DeviceCode>)
      modifies this
      ensures rows == Step(old(rows), ExpireTenant(tenant, now)) && rows.Keys == old(rows).Keys
      ensures forall code :: code in rows ==>
        rows[code] == if old(rows)[code].tenantId == Some(tenant) && old(rows)[code].status.Pending?
                         && old(rows)[code].expiresAt < now
                      then old(rows)[code].(status := Expired, updatedAt := now) else old(rows)[code]
      ensures forall i, j :: 0 <= i < j < |codes| ==> codes[i].createdAt >= codes[j].createdAt
      ensures forall r :: r in codes ==>
        && r.tenantId == Some(tenant) && (client.Some? ==> r.clientId == client)
        && r.status.Pending? && r.expiresAt > now
        && exists code :: code in old(rows) && old(rows)[code] == r
      ensures forall code :: code in old(rows) && old(rows)[code].tenantId == Some(tenant)
                             && (client.Some? ==> old(rows)[code].clientId == client)
                             && old(rows)[code].status.Pending? && old(rows)[code].expiresAt > now ==>
        old(rows)[code] in codes
      ensures |codes| == |Listing(old(rows), tenant, client, now)|
    {
      ExpireTenantDeviceCodes(tenant, now);
      codes := SelectListed(rows, tenant, client, now);
      OwnSweepKeepsListing(old(rows), tenant, client, now);
      ListingSpelled(old(rows), tenant, client, now);
      NewestFirstThroughout(codes);
    }
  }

  lemma {:induction false} NewestFirstThroughout(codes: seq<DeviceCode>)
    requires NewestFirst(codes)
    ensures forall i, j :: 0 <= i < j < |codes| ==> codes[i].createdAt >= codes[j].createdAt
  {
    if codes != [] {
      var n := |codes| - 1;
      NewestFirstThroughout(codes[..n]);
      forall i | 0 <= i < n ensures codes[i].createdAt >= codes[n].createdAt {
        assert codes[n - 1].createdAt >= codes[n - 1 + 1].createdAt;
        assert codes[..n][i].createdAt >= codes[..n][n - 1].createdAt;
      }
    }
  }

  /** A client's listing is its part of the tenant's listing, and no code is listed for two tenants. */
  lemma ListingsPartition(t: Table, tenant: string, client: string, other: string, now: int)
    ensures Listing(t, tenant, Some(client), now)
         == set r | r in Listing(t, tenant, None, now) && r.clientId == Some(client)
    ensures tenant != other ==> Listing(t, tenant, None, now) !! Listing(t, other, None, now)
    ensures forall r :: r in Listing(t, tenant, None, now) ==> r.tenantId == Some(tenant)
  {}

  predicate IsListed(r: DeviceCode, tenant: string, client: Option<string>, now: int) {
    r.tenantId == Some(tenant) && (client.Some? ==> r.clientId == client) && r.status == Pending && r.expiresAt > now
  }

  function Listing(t: Table, tenant: string, client: Option<string>, now: int): set<DeviceCode> {
    set code | code in t && IsListed(t[code], tenant, client, now) :: t[code]
  }

  /** The SELECT of the listing, one row at a time into creation order. */
  method SelectListed(t: Table, tenant: string, client: Option<string>, now: int) returns (codes: seq<DeviceCode>)
    ensures NewestFirst(codes)
    ensures forall r :: r in codes <==> r in Listing(t, tenant, client, now)
    ensures |codes| == |Listing(t, tenant, client, now)|
  {
    codes := [];
    var todo := Listing(t, tenant, client, now);
    while todo != {}
      invariant NewestFirst(codes)
      invariant forall r :: r in codes || r in todo <==> r in Listing(t, tenant, client, now)
      invariant |codes| + |todo| == |Listing(t, tenant, client, now)|
      decreases todo
    {
      var r :| r in todo;
      codes := Insert(codes, r);
      todo := todo - {r};
    }
  }

  lemma ListingSpelled(t: Table, tenant: string, client: Option<string>, now: int)
    ensures forall r :: r in Listing(t, tenant, client, now) ==>
      && r.tenantId == Some(tenant) && (client.Some? ==> r.clientId == client)
      && r.status.Pending? && r.expiresAt > now && exists code :: code in t && t[code] == r
    ensures forall code :: code in t && t[code].tenantId == Some(tenant)
                           && (client.Some? ==> t[code].clientId == client)
                           && t[code].status.Pending? && t[code].expiresAt > now ==>
      t[code] in Listing(t, tenant, client, now)
  {}

  lemma OwnSweepKeepsListing(t: Table, tenant: string, client: Option<string>, now: int)
    ensures Listing(Step(t, ExpireTenant(tenant, now)), tenant, client, now) == Listing(t, tenant, client, now)
  {
    var t' := Step(t, ExpireTenant(tenant, now));
    forall code | code in t
      ensures IsListed(t[code], tenant, client, now) <==> IsListed(t'[code], tenant, client, now)
      ensures IsListed(t[code], tenant, client, now) ==> t'[code] == t[code]
    {}
  }

  predicate NewestFirst(codes: seq<DeviceCode>) {
    forall i :: 0 <= i < |codes| - 1 ==> codes[i].createdAt >= codes[i + 1].createdAt
  }

  function Insert(codes: seq<DeviceCode>, r: DeviceCode): (out: seq<DeviceCode>)
    ensures |out| == |codes| + 1 && forall x :: x in out <==> x == r || x in codes
    ensures NewestFirst(codes) ==> NewestFirst(out)
    ensures out != [] && (out[0] == r || (codes != [] && out[0] == codes[0]))
  {
    if codes == [] || codes[0].createdAt <= r.createdAt then [r] + codes
    else [codes[0]] + Insert(codes[1..], r)
  }
}
