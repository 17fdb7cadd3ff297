/**
The `voice_active_sessions` table: sessions are created, touched, revoked one by one or all but one,
marked inactive when they expire, and deleted when old. One read decides whether a token is still
good. Each statement is one atomic step; times are Unix seconds.
*/
module VoiceSessions {
  import opened Options

  datatype Session = Session(
    sessionId: string,
    tenantId: string,
    userId: string,
    loginAt: int,
    lastActivityAt: int,
    expiresAt: int,
    isActive: bool,
    revokedAt: Option<int>,
    revokedReason: Option<string>,
    createdAt: int,
    updatedAt: int)

  /** Rows by session id, which a unique index makes a key. */
  type Table = map<string, Session>

  datatype Op =
    | Create(session: Session, now: int)
    | Revoke(id: string, reason: string, now: int)
    | RevokeAll(tenant: string, user: string, reason: string, except: string, now: int)
    | Touch(id: string, now: int)
    | Cleanup(now: int)
    | DeleteOld(olderThan: int, now: int)
    | AskRevoked(id: string, now: int)
    | AskActive(tenant: string, user: string, now: int)

  // ---------------------------------------------------------------- statements

  function Revoked(s: Session, reason: string, now: int): Session {
    s.(isActive := false, revokedAt := Some(now), revokedReason := Some(reason), updatedAt := now)
  }

  predicate RevokedByAll(s: Session, tenant: string, user: string, except: string) {
    s.tenantId == tenant && s.userId == user && s.isActive && s.sessionId != except
  }

  predicate IsOverdue(s: Session, now: int) {
    s.isActive && s.expiresAt < now
  }

  predicate IsOld(s: Session, cutoff: int) {
    !s.isActive && s.revokedAt.Some? && s.revokedAt.value < cutoff
  }

  /** What a statement does to one row: its new contents, or None when the row is deleted. */
  function Effect(s: Session, op: Op): Option<Session> {
    match op
    case Revoke(id, reason, now) =>
      if s.sessionId == id && s.isActive then Some(Revoked(s, reason, now)) else Some(s)
    case RevokeAll(tenant, user, reason, except, now) =>
      if RevokedByAll(s, tenant, user, except) then Some(Revoked(s, reason, now)) else Some(s)
    case Touch(id, now) =>
      if s.sessionId == id && s.isActive then Some(s.(lastActivityAt := now, updatedAt := now)) else Some(s)
    case Cleanup(now) => if IsOverdue(s, now) then Some(Revoked(s, "expired", now)) else Some(s)
    case DeleteOld(olderThan, now) => if IsOld(s, now - olderThan) then None else Some(s)
    case _ => Some(s)
  }

  /** An insert leaves the revocation columns NULL and fills in missing times. */
  function Inserted(s: Session, now: int): Session {
    s.(revokedAt := None, revokedReason := None, createdAt := now, updatedAt := now,
       loginAt := if s.loginAt == 0 then now else s.loginAt,
       lastActivityAt := if s.lastActivityAt == 0 then now else s.lastActivityAt)
  }

  function Step(t: Table, op: Op): Table {
    if op.Create? then
      if op.session.sessionId in t then t else t[op.session.sessionId := Inserted(op.session, op.now)]
    else map id | id in t && Effect(t[id], op).Some? :: Effect(t[id], op).value
  }

  // ---------------------------------------------------------------- reads

  predicate IsRevoked(t: Table, id: string, now: int) {
    id !in t || !t[id].isActive || now > t[id].expiresAt
  }

  function ActiveIds(t: Table, tenant: string, user: string, now: int): set<string> {
    set id | id in t && t[id].tenantId == tenant && t[id].userId == user && t[id].isActive && t[id].expiresAt > now
  }

  ghost predicate Keyed(t: Table) {
    forall id :: id in t ==> t[id].sessionId == id
  }

  lemma StepKeyed(t: Table, op: Op)
    requires Keyed(t)
    ensures Keyed(Step(t, op))
  {}

  class VoiceAuthRepository {
    var rows: Table

    constructor ()
      ensures rows == map[]
    {
      rows := map[];
    }

    method CreateVoiceActiveSession(session: Session, now: int) returns (ok: bool)
      modifies this
      ensures ok == (session.sessionId !in old(rows))
      ensures rows == Step(old(rows), Create(session, now))
      ensures !ok ==> rows == old(rows)
      ensures ok ==> rows - {session.sessionId} == old(rows) && session.sessionId in rows
      ensures ok ==> var s := rows[session.sessionId];
        && s.sessionId == session.sessionId && s.tenantId == session.tenantId && s.userId == session.userId
        && s.expiresAt == session.expiresAt && s.isActive == session.isActive
        && s.revokedAt.None? && s.revokedReason.None? && s.createdAt == s.updatedAt == now
        && s.loginAt == (if session.loginAt == 0 then now else session.loginAt)
        && s.lastActivityAt == (if session.lastActivityAt == 0 then now else session.lastActivityAt)
    {
      ok := session.sessionId !in rows;
      if ok {
        rows := rows[session.sessionId := Inserted(session, now)];
      }
    }

    method RevokeVoiceActiveSession(id: string, reason: string, now: int) returns (ok: bool)
      requires Keyed(rows)
      modifies this
      ensures ok <==> id in old(rows) && old(rows)[id].isActive
      ensures rows == Step(old(rows), Revoke(id, reason, now))
      ensures !ok ==> rows == old(rows)
      ensures ok ==> rows == old(rows)[id := old(rows)[id].(isActive := false, revokedAt := Some(now),
                                                            revokedReason := Some(reason), updatedAt := now)]
      ensures forall later :: IsRevoked(rows, id, later)
    {
      ok := id in rows && rows[id].isActive;
      if ok {
        rows := rows[id := Revoked(rows[id], reason, now)];
      }
    }

    method RevokeAllVoiceActiveSessions(tenant: string, user: string, reason: string, except: string, now: int)
      returns (affected: nat)
      requires Keyed(rows)
      modifies this
      ensures rows == Step(old(rows), RevokeAll(tenant, user, reason, except, now)) && rows.Keys == old(rows).Keys
      ensures forall id :: id in rows ==>
        rows[id] == if old(rows)[id].tenantId == tenant && old(rows)[id].userId == user && old(rows)[id].isActive
                       && id != except
                    then old(rows)[id].(isActive := false, revokedAt := Some(now), revokedReason := Some(reason),
                                        updatedAt := now)
                    else old(rows)[id]
      ensures affected == |set id | id in old(rows) && rows[id] != old(rows)[id]|
      ensures ActiveIds(rows, tenant, user, now) == ActiveIds(old(rows), tenant, user, now) * {except}
    {
      var doomed := set id | id in rows && RevokedByAll(rows[id], tenant, user, except);
      rows := map id | id in rows :: if id in doomed then Revoked(rows[id], reason, now) else rows[id];
      affected := |doomed|;
      assert doomed == set id | id in old(rows) && rows[id] != old(rows)[id];
    }

    method UpdateVoiceActiveSessionActivity(id: string, now: int)
      requires Keyed(rows)
      modifies this
      ensures rows == Step(old(rows), Touch(id, now))
      ensures id in old(rows) && old(rows)[id].isActive ==>
        rows == old(rows)[id := old(rows)[id].(lastActivityAt := now, updatedAt := now)]
      ensures id !in old(rows) || !old(rows)[id].isActive ==> rows == old(rows)
    {
      if id in rows && rows[id].isActive {
        rows := rows[id := rows[id].(lastActivityAt := now, updatedAt := now)];
      }
    }

    method IsSessionRevoked(id: string, now: int) returns (revoked: bool)
      ensures revoked == IsRevoked(rows, id, now)
      ensures !revoked <==> id in rows && rows[id].isActive && now <= rows[id].expiresAt
    {
      if id !in rows {
        return true;
      }
      var row := rows[id];
      revoked := !row.isActive || now > row.expiresAt;
    }

    method CountActiveSessionsForUser(tenant: string, user: string, now: int) returns (count: nat)
      ensures count == |set id | id in rows && rows[id].tenantId == tenant && rows[id].userId == user
                                 && rows[id].isActive && rows[id].expiresAt > now|
    {
      count := 0;
      var todo := rows.Keys;
      ghost var seen := {};
      while todo != {}
        invariant todo <= rows.Keys
        invariant seen == set id | id in ActiveIds(rows, tenant, user, now) && id !in todo
        invariant count == |seen|
        decreases todo
      {
        var id :| id in todo;
        todo := todo - {id};
        var row := rows[id];
        if row.tenantId == tenant && row.userId == user && row.isActive && row.expiresAt > now {
          seen := seen + {id};
          count := count + 1;
        }
      }
      assert seen == ActiveIds(rows, tenant, user, now);
      assert seen == set id | id in rows && rows[id].tenantId == tenant && rows[id].userId == user
                              && rows[id].isActive && rows[id].expiresAt > now;
    }

    method CleanupExpiredVoiceActiveSessions(now: int) returns (affected: nat)
      modifies this
      ensures rows == Step(old(rows), Cleanup(now)) && rows.Keys == old(rows).Keys
      ensures forall id :: id in rows ==>
        rows[id] == if old(rows)[id].isActive && old(rows)[id].expiresAt < now
                    then old(rows)[id].(isActive := false, revokedAt := Some(now), revokedReason := Some("expired"),
                                        updatedAt := now)
                    else old(rows)[id]
      ensures affected == |set id | id in old(rows) && old(rows)[id].isActive && old(rows)[id].expiresAt < now|
    {
      var overdue := set id | id in rows && IsOverdue(rows[id], now);
      rows := map id | id in rows :: if id in overdue then Revoked(rows[id], "expired", now) else rows[id];
      affected := |overdue|;
      assert overdue == set id | id in old(rows) && old(rows)[id].isActive && old(rows)[id].expiresAt < now;
    }

    method DeleteOldVoiceActiveSessions(olderThan: int, now: int) returns (affected: nat)
      modifies this
      ensures rows == Step(old(rows), DeleteOld(olderThan, now))
      ensures forall id :: id in rows <==> id in old(rows) && (old(rows)[id].isActive || old(rows)[id].revokedAt.None?
                                                               || now - olderThan <= old(rows)[id].revokedAt.value)
      ensures forall id :: id in rows ==> rows[id] == old(rows)[id]
      ensures |old(rows)| == |rows| + affected
    {
      var doomed := set id | id in rows && IsOld(rows[id], now - olderThan);
      DeletedRowsCount(rows, doomed);
      rows := rows - doomed;
      affected := |doomed|;
    }
  }

  // ---------------------------------------------------------------- whom a statement concerns

  /** Reads change nothing. */
  lemma ReadsChangeNothing(t: Table, op: Op)
    requires op.AskRevoked? || op.AskActive?
    ensures Step(t, op) == t
  {}

  /** Revoking all sessions of a user leaves the answers about every other user, and the spared session, alone. */
  lemma OthersKeepSessions(t: Table, tenant: string, user: string, reason: string, except: string, now: int, later: int)
    requires Keyed(t)
    ensures var t' := Step(t, RevokeAll(tenant, user, reason, except, now));
            && (forall id :: id in t && (t[id].tenantId != tenant || t[id].userId != user || id == except) ==>
                  id in t' && t'[id] == t[id] && (IsRevoked(t', id, later) <==> IsRevoked(t, id, later)))
            && (forall tenant', user' :: (tenant', user') != (tenant, user) ==>
                  ActiveIds(t', tenant', user', later) == ActiveIds(t, tenant', user', later))
            && (forall id :: id in t && t[id].tenantId == tenant && t[id].userId == user && id != except ==>
                  IsRevoked(t', id, later))
  {}

  /** A session that has just been created is good exactly until its expiry, unless it was created inactive. */
  lemma CreatedIsGood(t: Table, s: Session, now: int, later: int)
    requires s.sessionId !in t
    ensures !IsRevoked(Step(t, Create(s, now)), s.sessionId, later) <==> s.isActive && later <= s.expiresAt
  {}

  // ---------------------------------------------------------------- listed sessions are good

  /** A user's session is good exactly when it is listed as active, or expires this very second. */
  lemma ListedIffNotRevoked(t: Table, id: string, now: int)
    requires id in t
    ensures !IsRevoked(t, id, now) <==>
            id in ActiveIds(t, t[id].tenantId, t[id].userId, now) || (t[id].isActive && t[id].expiresAt == now)
  {}

  /** Revocation sees a cleanup where the reads do not: an overdue session can then no longer be revoked by name. */
  lemma CleanupForestallsRevoke(t: Table, id: string, now: int)
    requires id in t
    ensures var t' := Step(t, Cleanup(now));
            id in t' && (t'[id].isActive <==> t[id].isActive && !IsOverdue(t[id], now))
  {}

  // ---------------------------------------------------------------- revocation is permanent

  ghost predicate Ordered(ops: seq<Op>, since: int) {
    && (forall i :: 0 <= i < |ops| ==> since <= ops[i].now)
    && (forall i, j :: 0 <= i < j < |ops| ==> ops[i].now <= ops[j].now)
  }

  function ExecFrom(t: Table, ops: seq<Op>): Table {
    if ops == [] then t else Step(ExecFrom(t, ops[..|ops| - 1]), ops[|ops| - 1])
  }

  /** Once revoked or expired, a session whose id is not issued again is revoked for ever, whatever runs. */
  lemma {:induction false} RevokedForGood(t: Table, ops: seq<Op>, id: string, since: int, now: int)
    requires Keyed(t) && IsRevoked(t, id, since) && since <= now
    requires forall i :: 0 <= i < |ops| ==> !(ops[i].Create? && ops[i].session.sessionId == id)
    ensures Keyed(ExecFrom(t, ops)) && IsRevoked(ExecFrom(t, ops), id, now)
  {
    if ops != [] {
      var n := |ops| - 1;
      RevokedForGood(t, ops[..n], id, since, now);
      StepKeyed(ExecFrom(t, ops[..n]), ops[n]);
    }
  }

  // ---------------------------------------------------------------- maintenance is invisible

  datatype Answer = RevokedAnswer(revoked: bool) | ActiveAnswer(ids: set<string>)

  /** What the reads of a run answer, in order. */
  function Answers(t: Table, ops: seq<Op>): seq<Answer>
    decreases |ops|
  {
    if ops == [] then []
    else
      var later := Answers(Step(t, ops[0]), ops[1..]);
      match ops[0]
      case AskRevoked(id, now) => [RevokedAnswer(IsRevoked(t, id, now))] + later
      case AskActive(tenant, user, now) => [ActiveAnswer(ActiveIds(t, tenant, user, now))] + later
      case _ => later
  }

  predicate IsMaintenance(op: Op) {
    op.Cleanup? || op.DeleteOld?
  }

  /** The same run with every expiry cleanup and every deletion of old rows left out. */
  function WithoutMaintenance(ops: seq<Op>): seq<Op> {
    if ops == [] then []
    else if IsMaintenance(ops[0]) then WithoutMaintenance(ops[1..])
    else [ops[0]] + WithoutMaintenance(ops[1..])
  }

  /** A read answers from the table that the operations before it leave; other operations answer nothing. */
  lemma {:induction false} AnswersInOrder(t: Table, ops: seq<Op>, op: Op)
    ensures Answers(t, ops + [op]) == Answers(t, ops) +
            if op.AskRevoked? then [RevokedAnswer(IsRevoked(ExecFrom(t, ops), op.id, op.now))]
            else if op.AskActive? then [ActiveAnswer(ActiveIds(ExecFrom(t, ops), op.tenant, op.user, op.now))]
            else []
    decreases |ops|
  {
    if ops == [] {
      assert ops + [op] == [op] && [op][1..] == [];
    } else {
      assert (ops + [op])[1..] == ops[1..] + [op];
      AnswersInOrder(Step(t, ops[0]), ops[1..], op);
      ExecAfterFirst(t, ops);
    }
  }

  lemma {:induction false} ExecAfterFirst(t: Table, ops: seq<Op>)
    requires ops != []
    ensures ExecFrom(t, ops) == ExecFrom(Step(t, ops[0]), ops[1..])
    decreases |ops|
  {
    var n := |ops| - 1;
    if n > 0 {
      ExecAfterFirst(t, ops[..n]);
      assert ops[..n][1..] == ops[1..][..n - 1];
    } else {
      assert ops[..0] == [];
    }
  }

  /** All operations but the cleanups and deletions stay, in their order. */
  lemma {:induction false} WithoutMaintenanceInOrder(ops: seq<Op>, op: Op)
    ensures WithoutMaintenance(ops + [op]) ==
            WithoutMaintenance(ops) + if op.Cleanup? || op.DeleteOld? then [] else [op]
  {
    if ops == [] {
      assert ops + [op] == [op] && [op][1..] == [];
    } else {
      assert (ops + [op])[1..] == ops[1..] + [op];
      WithoutMaintenanceInOrder(ops[1..], op);
    }
  }

  /** Session ids are random: no insert repeats an id seen before. */
  ghost predicate FreshIds(ops: seq<Op>, used: set<string>) {
    ops == [] ||
    (if ops[0].Create? then ops[0].session.sessionId !in used && FreshIds(ops[1..], used + {ops[0].session.sessionId})
     else FreshIds(ops[1..], used))
  }

  /** No later read can tell the row from a missing one. */
  predicate Closed(t: Table, id: string, since: int) {
    id in t ==> !t[id].isActive || t[id].expiresAt < since
  }

  ghost predicate Agree(t: Table, t': Table, since: int) {
    forall id :: (id in t && id in t' && t[id] == t'[id]) || (Closed(t, id, since) && Closed(t', id, since))
  }

  lemma StaysClosed(t: Table, op: Op, id: string, since: int)
    requires Closed(t, id, since) && since <= op.now && !(op.Create? && op.session.sessionId == id)
    ensures Closed(Step(t, op), id, op.now)
  {}

  lemma StepsAgree(t: Table, t': Table, op: Op, since: int)
    requires Agree(t, t', since) && since <= op.now
    requires op.Create? ==> op.session.sessionId !in t && op.session.sessionId !in t'
    ensures Agree(Step(t, op), Step(t', op), op.now)
  {
    var u, u' := Step(t, op), Step(t', op);
    forall id
      ensures (id in u && id in u' && u[id] == u'[id]) || (Closed(u, id, op.now) && Closed(u', id, op.now))
    {
      assert (id in t && id in t' && t[id] == t'[id]) || (Closed(t, id, since) && Closed(t', id, since));
      if !(op.Create? && op.session.sessionId == id) && Closed(t, id, since) && Closed(t', id, since) {
        StaysClosed(t, op, id, since);
        StaysClosed(t', op, id, since);
      }
    }
  }

  lemma MaintenanceAgrees(t: Table, t': Table, op: Op, since: int)
    requires Agree(t, t', since) && since <= op.now && IsMaintenance(op)
    ensures Agree(Step(t, op), t', op.now)
  {
    var u := Step(t, op);
    forall id
      ensures (id in u && id in t' && u[id] == t'[id]) || (Closed(u, id, op.now) && Closed(t', id, op.now))
    {
      assert (id in t && id in t' && t[id] == t'[id]) || (Closed(t, id, since) && Closed(t', id, since));
    }
  }

  lemma SameAnswers(t: Table, t': Table, since: int, now: int)
    requires Agree(t, t', since) && since <= now
    ensures forall id :: IsRevoked(t, id, now) == IsRevoked(t', id, now)
    ensures forall tenant, user :: ActiveIds(t, tenant, user, now) == ActiveIds(t', tenant, user, now)
  {
    forall id ensures IsRevoked(t, id, now) == IsRevoked(t', id, now) {
      assert (id in t && id in t' && t[id] == t'[id]) || (Closed(t, id, since) && Closed(t', id, since));
    }
    forall tenant, user ensures ActiveIds(t, tenant, user, now) == ActiveIds(t', tenant, user, now) {
      ActiveSubset(t, t', since, tenant, user, now);
      ActiveSubset(t', t, since, tenant, user, now);
    }
  }

  lemma ActiveSubset(t: Table, t': Table, since: int, tenant: string, user: string, now: int)
    requires Agree(t, t', since) && since <= now
    ensures ActiveIds(t, tenant, user, now) <= ActiveIds(t', tenant, user, now)
  {
    forall id | id in ActiveIds(t, tenant, user, now) ensures id in ActiveIds(t', tenant, user, now) {
      assert !Closed(t, id, since);
    }
  }

  lemma {:induction false} AgreeingRunsAnswerAlike(t: Table, t': Table, ops: seq<Op>, since: int, used: set<string>)
    requires Agree(t, t', since) && Ordered(ops, since)
    requires t.Keys <= used && t'.Keys <= used && FreshIds(ops, used)
    ensures Answers(t, ops) == Answers(t', WithoutMaintenance(ops))
    decreases |ops|
  {
    if ops != [] {
      var op, rest := ops[0], ops[1..];
      var used' := if op.Create? then used + {op.session.sessionId} else used;
      assert Ordered(rest, op.now);
      if IsMaintenance(op) {
        MaintenanceAgrees(t, t', op, since);
        AgreeingRunsAnswerAlike(Step(t, op), t', rest, op.now, used');
      } else {
        StepsAgree(t, t', op, since);
        SameAnswers(t, t', since, op.now);
        AgreeingRunsAnswerAlike(Step(t, op), Step(t', op), rest, op.now, used');
        var kept := [op] + WithoutMaintenance(rest);
        assert kept[0] == op && kept[1..] == WithoutMaintenance(rest);
      }
    }
  }

  /**
  Expiry cleanups and deletions of old rows, wherever they fall in a run, change no answer of
  `IsSessionRevoked` and no list of active sessions.
  */
  lemma MaintenanceIsInvisible(t: Table, ops: seq<Op>, since: int)
    requires Ordered(ops, since) && FreshIds(ops, t.Keys)
    ensures Answers(t, ops) == Answers(t, WithoutMaintenance(ops))
  {
    AgreeingRunsAnswerAlike(t, t, ops, since, t.Keys);
  }
}
