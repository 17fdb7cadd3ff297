/** What every run of statements against `device_codes` keeps, starting from an empty table. */
module DeviceCodeRuns {
  import opened Options
  import opened UserCodes
  import opened DeviceCodes

  function Exec(ops: seq<Op>): Table {
    if ops == [] then map[] else Step(Exec(ops[..|ops| - 1]), ops[|ops| - 1])
  }

  lemma ExecNext(ops: seq<Op>, k: nat)
    requires k < |ops|
    ensures Exec(ops[..k + 1]) == Step(Exec(ops[..k]), ops[k])
  {
    assert ops[..k + 1][..k] == ops[..k];
  }

  lemma {:induction false} ExecValid(ops: seq<Op>)
    ensures Valid(Exec(ops))
  {
    if ops != [] {
      ExecValid(ops[..|ops| - 1]);
      StepValid(Exec(ops[..|ops| - 1]), ops[|ops| - 1]);
    }
  }

  predicate Creates(op: Op, code: string) {
    op.Create? && op.code.deviceCode == code
  }

  /** Device codes are 32 random bytes: one run never issues the same code twice. */
  ghost predicate IssuedOnce(ops: seq<Op>, code: string) {
    forall i, j :: 0 <= i < j < |ops| ==> !(Creates(ops[i], code) && Creates(ops[j], code))
  }

  lemma IssuedOnceIff(ops: seq<Op>, code: string)
    ensures IssuedOnce(ops, code) <==>
            forall i, j :: 0 <= i < j < |ops| && ops[i].Create? && ops[j].Create? ==>
              ops[i].code.deviceCode != code || ops[j].code.deviceCode != code
  {
    if i, j :| 0 <= i < j < |ops| && Creates(ops[i], code) && Creates(ops[j], code) {
      assert ops[i].Create? && ops[j].Create?;
    }
  }

  lemma {:induction false} PresentMeansIssued(ops: seq<Op>, k: nat, code: string) returns (i: nat)
    requires k <= |ops| && code in Exec(ops[..k])
    ensures i < k && Creates(ops[i], code)
  {
    ExecNext(ops, k - 1);
    if code in Exec(ops[..k - 1]) {
      i := PresentMeansIssued(ops, k - 1, code);
    } else {
      i := k - 1;
    }
  }

  /** A statement that does not insert a row acts on it alone. */
  lemma StepOnRow(t: Table, op: Op, code: string)
    requires !Creates(op, code)
    ensures code in Step(t, op) <==> code in t && Effect(t[code], op).Some?
    ensures code in Step(t, op) ==> Effect(t[code], op) == Some(Step(t, op)[code])
  {}

  lemma NotIssuedAgain(ops: seq<Op>, i: nat, j: nat, code: string)
    requires i <= j < |ops| && IssuedOnce(ops, code) && code in Exec(ops[..i])
    ensures !Creates(ops[j], code)
  {
    var k := PresentMeansIssued(ops, i, code);
  }

  lemma ActedOnce(ops: seq<Op>, k: nat, code: string)
    requires k < |ops| && !Creates(ops[k], code) && code in Exec(ops[..k + 1])
    ensures code in Exec(ops[..k]) && Effect(Exec(ops[..k])[code], ops[k]) == Some(Exec(ops[..k + 1])[code])
  {
    ExecNext(ops, k);
    StepOnRow(Exec(ops[..k]), ops[k], code);
  }

  /** Between two sightings of a row, the last statement acted on the row and did not insert it. */
  lemma LastActed(ops: seq<Op>, i: nat, j: nat, code: string)
    requires i < j <= |ops| && IssuedOnce(ops, code)
    requires code in Exec(ops[..i]) && code in Exec(ops[..j])
    ensures code in Exec(ops[..j - 1])
    ensures Effect(Exec(ops[..j - 1])[code], ops[j - 1]) == Some(Exec(ops[..j])[code])
  {
    NotIssuedAgain(ops, i, j - 1, code);
    ActedOnce(ops, j - 1, code);
  }

  // ---------------------------------------------------------------- status never falls back

  function Rank(s: Status): nat {
    match s
    case Pending => 0
    case Authorized => 1
    case Denied => 1
    case Expired => 1
    case Consumed => 2
  }

  /** Status updates other than the guarded statements only ever mark codes consumed. */
  ghost predicate OnlyConsumes(ops: seq<Op>) {
    forall i :: 0 <= i < |ops| && ops[i].UpdateStatus? ==> ops[i].status == Consumed
  }

  lemma EffectKeepsRank(r: DeviceCode, op: Op)
    requires Effect(r, op).Some? && (op.UpdateStatus? ==> op.status == Consumed)
    ensures Rank(r.status) <= Rank(Effect(r, op).value.status)
  {}

  lemma {:induction false} RankOnlyGrows(ops: seq<Op>, i: nat, j: nat, code: string)
    requires i <= j <= |ops| && IssuedOnce(ops, code) && OnlyConsumes(ops)
    requires code in Exec(ops[..i]) && code in Exec(ops[..j])
    ensures Rank(Exec(ops[..i])[code].status) <= Rank(Exec(ops[..j])[code].status)
    decreases j
  {
    if i < j {
      LastActed(ops, i, j, code);
      RankOnlyGrows(ops, i, j - 1, code);
      EffectKeepsRank(Exec(ops[..j - 1])[code], ops[j - 1]);
    }
  }

  lemma RankSpelled(s: Status, s': Status)
    requires Rank(s) <= Rank(s')
    ensures (s.Consumed? ==> s'.Consumed?) && (!s.Pending? ==> !s'.Pending?)
  {}

  /** A code once used stays used, and a decided one is never pending again. */
  lemma RankNeverFalls(ops: seq<Op>, i: nat, j: nat, code: string)
    requires i <= j <= |ops| && IssuedOnce(ops, code) && OnlyConsumes(ops)
    requires code in Exec(ops[..i]) && code in Exec(ops[..j])
    ensures Rank(Exec(ops[..i])[code].status) <= Rank(Exec(ops[..j])[code].status)
    ensures Exec(ops[..i])[code].status.Consumed? ==> Exec(ops[..j])[code].status.Consumed?
    ensures !Exec(ops[..i])[code].status.Pending? ==> !Exec(ops[..j])[code].status.Pending?
  {
    RankOnlyGrows(ops, i, j, code);
    RankSpelled(Exec(ops[..i])[code].status, Exec(ops[..j])[code].status);
  }

  /** The order the whole program keeps: a code that is closed, by use or by time, stays closed. */
  function Stage(s: Status): nat {
    match s
    case Pending => 0
    case Authorized => 1
    case Denied => 1
    case Expired => 2
    case Consumed => 2
  }

  /** Unguarded status updates mark codes consumed or expired, as the service does. */
  ghost predicate OnlyCloses(ops: seq<Op>) {
    forall i :: 0 <= i < |ops| && ops[i].UpdateStatus? ==> ops[i].status == Consumed || ops[i].status == Expired
  }

  lemma EffectKeepsStage(r: DeviceCode, op: Op)
    requires Effect(r, op).Some? && (op.UpdateStatus? ==> op.status == Consumed || op.status == Expired)
    ensures Stage(r.status) <= Stage(Effect(r, op).value.status)
  {}

  lemma {:induction false} StageOnlyGrows(ops: seq<Op>, i: nat, j: nat, code: string)
    requires i <= j <= |ops| && IssuedOnce(ops, code) && OnlyCloses(ops)
    requires code in Exec(ops[..i]) && code in Exec(ops[..j])
    ensures Stage(Exec(ops[..i])[code].status) <= Stage(Exec(ops[..j])[code].status)
    decreases j
  {
    if i < j {
      LastActed(ops, i, j, code);
      StageOnlyGrows(ops, i, j - 1, code);
      EffectKeepsStage(Exec(ops[..j - 1])[code], ops[j - 1]);
    }
  }

  lemma StageSpelled(s: Status, s': Status)
    requires Stage(s) <= Stage(s')
    ensures !s.Pending? ==> !s'.Pending?
    ensures s'.Authorized? || s'.Denied? ==> !s.Consumed? && !s.Expired?
  {}

  /** In every run of the program's statements a code only moves on: pending, then decided, then closed. */
  lemma StageNeverFalls(ops: seq<Op>, i: nat, j: nat, code: string)
    requires i <= j <= |ops| && IssuedOnce(ops, code) && OnlyCloses(ops)
    requires code in Exec(ops[..i]) && code in Exec(ops[..j])
    ensures Stage(Exec(ops[..i])[code].status) <= Stage(Exec(ops[..j])[code].status)
    ensures !Exec(ops[..i])[code].status.Pending? ==> !Exec(ops[..j])[code].status.Pending?
    ensures Exec(ops[..j])[code].status.Authorized? || Exec(ops[..j])[code].status.Denied? ==>
      !Exec(ops[..i])[code].status.Consumed? && !Exec(ops[..i])[code].status.Expired?
  {
    StageOnlyGrows(ops, i, j, code);
    StageSpelled(Exec(ops[..i])[code].status, Exec(ops[..j])[code].status);
  }

  // ---------------------------------------------------------------- a decision is final

  datatype Identity = Identity(userId: Option<string>, userEmail: Option<string>, tenantId: Option<string>,
                               tenantDomain: Option<string>, clientId: Option<string>,
                               accessToken: Option<string>, authorizedAt: Option<int>)

  function IdentityOf(r: DeviceCode): Identity {
    Identity(r.userId, r.userEmail, r.tenantId, r.tenantDomain, r.clientId, r.accessToken, r.authorizedAt)
  }

  ghost predicate NeverReopens(ops: seq<Op>) {
    forall i :: 0 <= i < |ops| && ops[i].UpdateStatus? ==> ops[i].status != Pending
  }

  lemma EffectKeepsDecision(r: DeviceCode, op: Op)
    requires r.status != Pending && Effect(r, op).Some? && (op.UpdateStatus? ==> op.status != Pending)
    ensures Effect(r, op).value.status != Pending
    ensures IdentityOf(Effect(r, op).value) == IdentityOf(r)
  {}

  lemma SettledOnce(r: DeviceCode, op: Op, r': DeviceCode)
    requires r.status != Pending && Effect(r, op) == Some(r') && (op.UpdateStatus? ==> op.status != Pending)
    ensures r'.status != Pending && IdentityOf(r') == IdentityOf(r)
  {
    EffectKeepsDecision(r, op);
  }

  /** Once a row has left pending it never returns, and who it was granted to never changes. */
  lemma {:induction false} SettledForGood(ops: seq<Op>, i: nat, j: nat, code: string)
    requires i <= j <= |ops| && IssuedOnce(ops, code) && NeverReopens(ops)
    requires code in Exec(ops[..i]) && code in Exec(ops[..j])
    requires Exec(ops[..i])[code].status != Pending
    ensures Exec(ops[..j])[code].status != Pending
    ensures IdentityOf(Exec(ops[..j])[code]) == IdentityOf(Exec(ops[..i])[code])
    decreases j
  {
    if i < j {
      LastActed(ops, i, j, code);
      SettledForGood(ops, i, j - 1, code);
      SettledOnce(Exec(ops[..j - 1])[code], ops[j - 1], Exec(ops[..j])[code]);
    }
  }

  ghost predicate Decides(ops: seq<Op>, i: nat, code: string)
    requires i < |ops|
  {
    ops[i].Authorize? && code in Exec(ops[..i]) && CanAuthorize(Exec(ops[..i])[code], ops[i].userCode)
  }

  /** A code is approved or denied at most once in any run. */
  lemma DecidedAtMostOnce(ops: seq<Op>, i: nat, j: nat, code: string)
    requires i < j < |ops| && IssuedOnce(ops, code) && NeverReopens(ops)
    requires Decides(ops, i, code)
    ensures !Decides(ops, j, code)
  {
    ExecNext(ops, i);
    if code in Exec(ops[..j]) {
      SettledForGood(ops, i + 1, j, code);
    }
  }

  /** Only rows that are expired, consumed or denied, and old enough, are ever deleted. */
  lemma DeletedOnlyWhenSpent(t: Table, op: Op, code: string)
    requires code in t
    ensures code !in Step(t, op) <==> op.DeleteExpired? && IsDeletable(t[code], op.now - op.olderThan)
  {}

  lemma StepKeepsAuthorized(t: Table, op: Op, code: string)
    requires Valid(t) && code in t && t[code].status == Authorized
    requires !Creates(op, code) && !(op.UpdateStatus? && op.deviceCode == code)
    ensures code in Step(t, op) && Step(t, op)[code].status == Authorized
    ensures IdentityOf(Step(t, op)[code]) == IdentityOf(t[code])
  {
    StepOnRow(t, op, code);
  }

  lemma AuthorizedKeptOnce(ops: seq<Op>, k: nat, code: string)
    requires k < |ops| && code in Exec(ops[..k]) && Exec(ops[..k])[code].status == Authorized
    requires !Creates(ops[k], code) && !(ops[k].UpdateStatus? && ops[k].deviceCode == code)
    ensures code in Exec(ops[..k + 1]) && Exec(ops[..k + 1])[code].status == Authorized
    ensures IdentityOf(Exec(ops[..k + 1])[code]) == IdentityOf(Exec(ops[..k])[code])
  {
    ExecValid(ops[..k]);
    ExecNext(ops, k);
    StepKeepsAuthorized(Exec(ops[..k]), ops[k], code);
  }

  /** No status update names the code between the two times. */
  ghost predicate NotRelabelled(ops: seq<Op>, i: nat, j: nat, code: string)
    requires j <= |ops|
  {
    forall k :: i <= k < j ==> !(ops[k].UpdateStatus? && ops[k].deviceCode == code)
  }

  /** An authorized code keeps its token until someone consumes or re-labels it, whatever else happens. */
  lemma {:induction false} AuthorizedIsKept(ops: seq<Op>, i: nat, j: nat, code: string)
    requires i <= j <= |ops| && IssuedOnce(ops, code)
    requires code in Exec(ops[..i]) && Exec(ops[..i])[code].status == Authorized
    requires NotRelabelled(ops, i, j, code)
    ensures code in Exec(ops[..j]) && Exec(ops[..j])[code].status == Authorized
    ensures IdentityOf(Exec(ops[..j])[code]) == IdentityOf(Exec(ops[..i])[code])
    decreases j
  {
    if i < j {
      AuthorizedIsKept(ops, i, j - 1, code);
      NotIssuedAgain(ops, i, j - 1, code);
      AuthorizedKeptOnce(ops, j - 1, code);
    }
  }

  // ---------------------------------------------------------------- poll interval

  predicate Accepts(t: Table, op: Op, code: string) {
    op.Poll? && op.deviceCode == code && code in t && CanPoll(t[code], op.minInterval, op.now)
  }

  /** The times of the polls of one code that were not refused as too soon. */
  function AcceptedPolls(ops: seq<Op>, code: string): seq<int> {
    if ops == [] then []
    else
      var n := |ops| - 1;
      var earlier := AcceptedPolls(ops[..n], code);
      if Accepts(Exec(ops[..n]), ops[n], code) then earlier + [ops[n].now] else earlier
  }

  ghost predicate Spaced(times: seq<int>, interval: int) {
    forall i :: 0 <= i < |times| - 1 ==> times[i + 1] - times[i] >= interval
  }

  ghost predicate PollsAtLeast(ops: seq<Op>, code: string, interval: int) {
    forall i :: 0 <= i < |ops| && ops[i].Poll? && ops[i].deviceCode == code ==> ops[i].minInterval >= interval
  }

  lemma {:induction false} PolledMeansIssued(ops: seq<Op>, code: string)
    requires AcceptedPolls(ops, code) != []
    ensures exists i :: 0 <= i < |ops| - 1 && Creates(ops[i], code)
  {
    var n := |ops| - 1;
    if Accepts(Exec(ops[..n]), ops[n], code) {
      var i := PresentMeansIssued(ops, n, code);
    } else {
      PolledMeansIssued(ops[..n], code);
      var i :| 0 <= i < n - 1 && Creates(ops[..n][i], code);
      assert Creates(ops[i], code);
    }
  }

  function LastPoll(ops: seq<Op>, code: string): int
    requires AcceptedPolls(ops, code) != []
  {
    AcceptedPolls(ops, code)[|AcceptedPolls(ops, code)| - 1]
  }

  lemma EffectKeepsPoll(r: DeviceCode, op: Op)
    requires Effect(r, op).Some?
    ensures var polled := op.Poll? && op.deviceCode == r.deviceCode && CanPoll(r, op.minInterval, op.now);
            Effect(r, op).value.lastPolledAt == if polled then Some(op.now) else r.lastPolledAt
  {}

  /** A present row remembers the last accepted poll. */
  lemma {:induction false} PollsAreRemembered(ops: seq<Op>, code: string)
    requires IssuedOnce(ops, code) && code in Exec(ops) && AcceptedPolls(ops, code) != []
    ensures Exec(ops)[code].lastPolledAt == Some(LastPoll(ops, code))
  {
    var n := |ops| - 1;
    var before := ops[..n];
    ExecValid(before);
    PolledMeansIssued(ops, code);
    var i :| 0 <= i < n && Creates(ops[i], code);
    assert !Creates(ops[n], code);
    StepOnRow(Exec(before), ops[n], code);
    EffectKeepsPoll(Exec(before)[code], ops[n]);
    if !Accepts(Exec(before), ops[n], code) {
      PollsAreRemembered(before, code);
    }
  }

  lemma SpacedAppend(times: seq<int>, x: int, interval: int)
    requires Spaced(times, interval) && (times != [] ==> x - times[|times| - 1] >= interval)
    ensures Spaced(times + [x], interval)
  {}

  /** In every run, two accepted polls of one code in a row are at least the minimum interval apart. */
  lemma {:induction false} PollsAreSpaced(ops: seq<Op>, code: string, interval: int)
    requires IssuedOnce(ops, code) && PollsAtLeast(ops, code, interval)
    ensures Spaced(AcceptedPolls(ops, code), interval)
  {
    if ops != [] {
      var n := |ops| - 1;
      PollsAreSpaced(ops[..n], code, interval);
      if Accepts(Exec(ops[..n]), ops[n], code) {
        assert ops[n].minInterval >= interval;
        if AcceptedPolls(ops[..n], code) != [] {
          PollsAreRemembered(ops[..n], code);
        }
        SpacedAppend(AcceptedPolls(ops[..n], code), ops[n].now, interval);
      }
    }
  }

  /** So n accepted polls span at least n - 1 intervals, whatever was refused in between. */
  lemma {:induction false} SpacedSpan(times: seq<int>, interval: int)
    requires Spaced(times, interval) && times != []
    ensures times[|times| - 1] - times[0] >= (|times| - 1) * interval
  {
    if |times| > 1 {
      var n := |times| - 1;
      SpacedSpan(times[..n], interval);
      assert times[n - 1 + 1] - times[n - 1] >= interval;
      assert (n - 1) * interval + interval == n * interval;
    }
  }

  lemma PollSpan(ops: seq<Op>, code: string, interval: int)
    requires IssuedOnce(ops, code) && PollsAtLeast(ops, code, interval) && AcceptedPolls(ops, code) != []
    ensures var polls := AcceptedPolls(ops, code);
            polls[|polls| - 1] - polls[0] >= (|polls| - 1) * interval
  {
    PollsAreSpaced(ops, code, interval);
    SpacedSpan(AcceptedPolls(ops, code), interval);
  }

  // ---------------------------------------------------------------- one spelling, one row

  ghost predicate AllShaped(t: Table) {
    forall code :: code in t ==> WellShaped(t[code].userCode)
  }

  lemma {:induction false} ExecShaped(ops: seq<Op>)
    requires forall i :: 0 <= i < |ops| && ops[i].Create? ==> WellShaped(ops[i].code.userCode)
    ensures AllShaped(Exec(ops))
  {
    if ops != [] {
      ExecShaped(ops[..|ops| - 1]);
    }
  }

  /** With generated codes, whatever a user types matches, or authorizes, at most one row. */
  lemma SpellingFindsOneRow(ops: seq<Op>, typed: string, c: string, d: string)
    requires forall i :: 0 <= i < |ops| && ops[i].Create? ==> WellShaped(ops[i].code.userCode)
    requires c in Exec(ops) && StripHyphens(Exec(ops)[c].userCode) == StripHyphens(typed)
    requires d in Exec(ops) && StripHyphens(Exec(ops)[d].userCode) == StripHyphens(typed)
    ensures c == d
  {
    ExecShaped(ops);
    ExecValid(ops);
    StripIsInjective(Exec(ops)[c].userCode, Exec(ops)[d].userCode);
  }

  // ---------------------------------------------------------------- sweeps are invisible

  function ExecFrom(t: Table, ops: seq<Op>): Table {
    if ops == [] then t else Step(ExecFrom(t, ops[..|ops| - 1]), ops[|ops| - 1])
  }

  /** The row, if there is one, had already expired at `since`. */
  predicate Gone(t: Table, code: string, since: int) {
    code in t ==> t[code].expiresAt < since
  }

  /** Two tables agree on every row that had not expired at `since`. */
  ghost predicate AgreeOnFresh(t: Table, t': Table, since: int) {
    forall code :: (code in t && code in t' && t[code] == t'[code]) || (Gone(t, code, since) && Gone(t', code, since))
  }

  /** Both tables accept the new code, or both refuse it. */
  ghost predicate SameConflicts(op: Op, t: Table, t': Table) {
    op.Create? ==> (Conflicts(t, op.code) <==> Conflicts(t', op.code))
  }

  lemma StaysGone(t: Table, op: Op, code: string, since: int)
    requires Gone(t, code, since) && !Creates(op, code)
    ensures Gone(Step(t, op), code, since)
  {
    StepOnRow(t, op, code);
  }

  lemma StepKeepsAgreement(t: Table, t': Table, op: Op, since: int)
    requires AgreeOnFresh(t, t', since) && SameConflicts(op, t, t')
    ensures AgreeOnFresh(Step(t, op), Step(t', op), since)
  {
    var u, u' := Step(t, op), Step(t', op);
    forall code
      ensures (code in u && code in u' && u[code] == u'[code]) || (Gone(u, code, since) && Gone(u', code, since))
    {
      assert (code in t && code in t' && t[code] == t'[code]) || (Gone(t, code, since) && Gone(t', code, since));
      if !Creates(op, code) {
        StepOnRow(t, op, code);
        StepOnRow(t', op, code);
        if Gone(t, code, since) && Gone(t', code, since) {
          StaysGone(t, op, code, since);
          StaysGone(t', op, code, since);
        }
      }
    }
  }

  /** The operations that follow meet the same conflicts in both continuations. */
  ghost predicate SameConflictsThroughout(ops: seq<Op>, t: Table, t': Table) {
    forall i :: 0 <= i < |ops| ==> SameConflicts(ops[i], ExecFrom(t, ops[..i]), ExecFrom(t', ops[..i]))
  }

  lemma {:induction false} RunKeepsAgreement(ops: seq<Op>, t: Table, t': Table, since: int)
    requires AgreeOnFresh(t, t', since) && SameConflictsThroughout(ops, t, t')
    ensures AgreeOnFresh(ExecFrom(t, ops), ExecFrom(t', ops), since)
  {
    if ops != [] {
      var n := |ops| - 1;
      forall i | 0 <= i < n
        ensures SameConflicts(ops[..n][i], ExecFrom(t, ops[..n][..i]), ExecFrom(t', ops[..n][..i]))
      {
        assert ops[..n][..i] == ops[..i];
      }
      RunKeepsAgreement(ops[..n], t, t', since);
      StepKeepsAgreement(ExecFrom(t, ops[..n]), ExecFrom(t', ops[..n]), ops[n], since);
    }
  }

  /** The rows a sweep marks. */
  predicate IsSwept(r: DeviceCode, sweep: Op) {
    && r.status.Pending? && r.expiresAt < sweep.now
    && (sweep.ExpireOld? || (sweep.ExpireTenant? && r.tenantId == Some(sweep.tenant)))
  }

  /** No new code repeats the device code or the user code of a row the sweep marks. */
  ghost predicate AvoidsSwept(ops: seq<Op>, t: Table, sweep: Op) {
    forall i, code :: 0 <= i < |ops| && ops[i].Create? && code in t && IsSwept(t[code], sweep) ==>
      ops[i].code.deviceCode != code && ops[i].code.userCode != t[code].userCode
  }

  /** Outside the swept rows two tables are the same; swept rows, where still present, keep their user codes. */
  ghost predicate SameButSwept(u: Table, u': Table, t: Table, sweep: Op) {
    forall code ::
      if code in t && IsSwept(t[code], sweep)
      then KeepsUserCode(u, code, t[code].userCode) && KeepsUserCode(u', code, t[code].userCode)
      else (code in u <==> code in u') && (code in u && code in u' ==> u[code] == u'[code])
  }

  predicate KeepsUserCode(u: Table, code: string, userCode: string) {
    code in u ==> u[code].userCode == userCode
  }

  lemma StepKeepsUserCode(u: Table, op: Op, code: string, userCode: string)
    requires KeepsUserCode(u, code, userCode) && !Creates(op, code)
    ensures KeepsUserCode(Step(u, op), code, userCode)
  {
    StepOnRow(u, op, code);
    if code in Step(u, op) {
      EffectKeepsCodes(u[code], op);
    }
  }

  lemma ConflictsAlike(u: Table, u': Table, t: Table, sweep: Op, c: NewCode)
    requires SameButSwept(u, u', t, sweep) && Conflicts(u, c)
    requires forall code :: code in t && IsSwept(t[code], sweep) ==>
               c.deviceCode != code && c.userCode != t[code].userCode
    ensures Conflicts(u', c)
  {
    if c.deviceCode in u {
      assert c.deviceCode in u';
    } else {
      var code :| code in u && u[code].userCode == c.userCode;
      assert code in u' && u'[code].userCode == c.userCode;
    }
  }

  lemma SymmetricSwept(u: Table, u': Table, t: Table, sweep: Op)
    requires SameButSwept(u, u', t, sweep)
    ensures SameButSwept(u', u, t, sweep)
  {}

  lemma StepSameButSwept(u: Table, u': Table, t: Table, sweep: Op, op: Op)
    requires SameButSwept(u, u', t, sweep) && AvoidsSwept([op], t, sweep)
    ensures SameConflicts(op, u, u') && SameButSwept(Step(u, op), Step(u', op), t, sweep)
  {
    if op.Create? {
      assert [op][0] == op;
      SymmetricSwept(u, u', t, sweep);
      if Conflicts(u, op.code) {
        ConflictsAlike(u, u', t, sweep, op.code);
      }
      if Conflicts(u', op.code) {
        ConflictsAlike(u', u, t, sweep, op.code);
      }
    } else {
      RewriteSameButSwept(u, u', t, sweep, op);
    }
  }

  lemma RewriteSameButSwept(u: Table, u': Table, t: Table, sweep: Op, op: Op)
    requires SameButSwept(u, u', t, sweep) && !op.Create?
    ensures SameButSwept(Step(u, op), Step(u', op), t, sweep)
  {
    var v, v' := Step(u, op), Step(u', op);
    forall code
      ensures if code in t && IsSwept(t[code], sweep)
              then KeepsUserCode(v, code, t[code].userCode) && KeepsUserCode(v', code, t[code].userCode)
              else (code in v <==> code in v') && (code in v && code in v' ==> v[code] == v'[code])
    {
      StepOnRow(u, op, code);
      StepOnRow(u', op, code);
      if code in t && IsSwept(t[code], sweep) {
        StepKeepsUserCode(u, op, code, t[code].userCode);
        StepKeepsUserCode(u', op, code, t[code].userCode);
      }
    }
  }

  lemma {:induction false} RunSameButSwept(ops: seq<Op>, u: Table, u': Table, t: Table, sweep: Op)
    requires SameButSwept(u, u', t, sweep) && AvoidsSwept(ops, t, sweep)
    ensures SameButSwept(ExecFrom(u, ops), ExecFrom(u', ops), t, sweep)
  {
    if ops != [] {
      var n := |ops| - 1;
      RunSameButSwept(ops[..n], u, u', t, sweep);
      StepSameButSwept(ExecFrom(u, ops[..n]), ExecFrom(u', ops[..n]), t, sweep, ops[n]);
    }
  }

  /** A run that avoids the swept codes meets the same conflicts with and without the sweep. */
  lemma AvoidingRunsConflictAlike(ops: seq<Op>, t: Table, sweep: Op)
    requires (sweep.ExpireOld? || sweep.ExpireTenant?) && AvoidsSwept(ops, t, sweep)
    ensures SameConflictsThroughout(ops, t, Step(t, sweep))
  {
    assert SameButSwept(t, Step(t, sweep), t, sweep);
    forall i | 0 <= i < |ops| ensures SameConflicts(ops[i], ExecFrom(t, ops[..i]), ExecFrom(Step(t, sweep), ops[..i])) {
      RunSameButSwept(ops[..i], t, Step(t, sweep), t, sweep);
      StepSameButSwept(ExecFrom(t, ops[..i]), ExecFrom(Step(t, sweep), ops[..i]), t, sweep, ops[i]);
    }
  }

  predicate PendingAt(t: Table, code: string, now: int) {
    code in t && t[code].IsPending(now)
  }

  /** The sweep, and what follows it, answers every later question as if it had not happened. */
  ghost predicate Invisible(t: Table, sweep: Op, ops: seq<Op>, now: int) {
    var u, u' := ExecFrom(t, ops), ExecFrom(Step(t, sweep), ops);
    && (forall code :: PendingAt(u, code, now) == PendingAt(u', code, now))
    && (forall tenant, client :: Listing(u, tenant, client, now) == Listing(u', tenant, client, now))
  }

  /**
  Inserting an expiry sweep anywhere in a run changes no later answer of `IsPending` and no later
  pending listing, whatever follows it, as long as no new code repeats one that the sweep marks.
  */
  lemma SweepIsInvisible(t: Table, sweep: Op, ops: seq<Op>, now: int)
    requires (sweep.ExpireOld? || sweep.ExpireTenant?) && sweep.now <= now && AvoidsSwept(ops, t, sweep)
    ensures Invisible(t, sweep, ops, now)
  {
    var u, u' := ExecFrom(t, ops), ExecFrom(Step(t, sweep), ops);
    assert AgreeOnFresh(t, Step(t, sweep), sweep.now);
    AvoidingRunsConflictAlike(ops, t, sweep);
    RunKeepsAgreement(ops, t, Step(t, sweep), sweep.now);
    forall code ensures PendingAt(u, code, now) == PendingAt(u', code, now) {
      assert (code in u && code in u' && u[code] == u'[code])
          || (Gone(u, code, sweep.now) && Gone(u', code, sweep.now));
    }
    forall tenant, client ensures Listing(u, tenant, client, now) == Listing(u', tenant, client, now) {
      SameListing(u, u', sweep.now, now, tenant, client);
      SameListing(u', u, sweep.now, now, tenant, client);
    }
  }

  function SameUserCode(r: DeviceCode, deviceCode: string, now: int): NewCode {
    NewCode(deviceCode, r.userCode, r.details, None, None, Pending, now)
  }

  /** Deleting rows of the given age and issuing the swept row's user code again, under a new device code. */
  function Reissue(r: DeviceCode, deviceCode: string, age: int, later: int): seq<Op> {
    [DeleteExpired(age, later)] + [Create(SameUserCode(r, deviceCode, later), later)]
  }

  lemma ReissueRun(t: Table, r: DeviceCode, deviceCode: string, age: int, later: int)
    ensures ExecFrom(t, Reissue(r, deviceCode, age, later))
         == Step(Step(t, DeleteExpired(age, later)), Create(SameUserCode(r, deviceCode, later), later))
  {
    var delete, create := DeleteExpired(age, later), Create(SameUserCode(r, deviceCode, later), later);
    assert ([delete] + [create])[..1] == [delete] && [delete][..0] == [];
    assert ExecFrom(t, [delete]) == Step(t, delete);
  }

  /** Then the sweep shows: the new code is accepted only where the stale row was swept and so deleted. */
  lemma ReissueShowsSweep(t: Table, sweep: Op, code: string, deviceCode: string, age: int, later: int)
    requires Valid(t) && code in t && IsSwept(t[code], sweep) && deviceCode !in t
    requires sweep.now <= later && t[code].expiresAt < later - age
    ensures !Invisible(t, sweep, Reissue(t[code], deviceCode, age, later), later)
  {
    var delete, create := DeleteExpired(age, later), Create(SameUserCode(t[code], deviceCode, later), later);
    ReissueRun(t, t[code], deviceCode, age, later);
    ReissueRun(Step(t, sweep), t[code], deviceCode, age, later);
    RefusedWithout(t, sweep, code, deviceCode, delete, create);
    AcceptedWith(t, sweep, code, deviceCode, delete, create);
    var u, u' := Step(Step(t, delete), create), Step(Step(Step(t, sweep), delete), create);
    assert PendingAt(u, deviceCode, later) != PendingAt(u', deviceCode, later);
  }

  lemma RefusedWithout(t: Table, sweep: Op, code: string, deviceCode: string, delete: Op, create: Op)
    requires code in t && IsSwept(t[code], sweep) && deviceCode !in t && delete.DeleteExpired?
    requires create.Create? && create.code.deviceCode == deviceCode && create.code.userCode == t[code].userCode
    ensures deviceCode !in Step(Step(t, delete), create)
  {
    StepOnRow(t, delete, code);
    assert Conflicts(Step(t, delete), create.code);
  }

  lemma AcceptedWith(t: Table, sweep: Op, code: string, deviceCode: string, delete: Op, create: Op)
    requires Valid(t) && code in t && IsSwept(t[code], sweep) && deviceCode !in t
    requires delete.DeleteExpired? && t[code].expiresAt < delete.now - delete.olderThan
    requires create.Create? && create.code.deviceCode == deviceCode && create.code.userCode == t[code].userCode
    requires create.code.status == Pending && create.code.expiresAt == create.now
    ensures PendingAt(Step(Step(Step(t, sweep), delete), create), deviceCode, create.now)
  {
    var u' := Step(Step(t, sweep), delete);
    SweptThenDeleted(t, sweep, code, delete);
    forall c | c in u' ensures c in t && u'[c].userCode == t[c].userCode && c != code {
      RewrittenTwice(t, sweep, delete, c);
    }
    assert !Conflicts(u', create.code);
  }

  lemma SweptThenDeleted(t: Table, sweep: Op, code: string, delete: Op)
    requires code in t && IsSwept(t[code], sweep)
    requires delete.DeleteExpired? && t[code].expiresAt < delete.now - delete.olderThan
    ensures code !in Step(Step(t, sweep), delete)
  {
    StepOnRow(t, sweep, code);
    StepOnRow(Step(t, sweep), delete, code);
  }

  lemma RewrittenTwice(t: Table, first: Op, second: Op, c: string)
    requires !first.Create? && !second.Create? && c in Step(Step(t, first), second)
    ensures c in t && Step(Step(t, first), second)[c].userCode == t[c].userCode
  {
    StepOnRow(t, first, c);
    StepOnRow(Step(t, first), second, c);
    EffectKeepsCodes(t[c], first);
    EffectKeepsCodes(Step(t, first)[c], second);
  }

  /** Every delete of the run waits for the given age. */
  ghost predicate DeletesAt(ops: seq<Op>, age: int) {
    forall i :: 0 <= i < |ops| && ops[i].DeleteExpired? ==> ops[i].olderThan == age
  }

  /** Whatever follows it and whenever one asks, the sweep is invisible. */
  ghost predicate AlwaysInvisible(t: Table, sweep: Op, age: int) {
    forall ops, now :: sweep.now <= now && DeletesAt(ops, age) ==> Invisible(t, sweep, ops, now)
  }

  /** For every age at which rows are deleted, a sweep is always invisible exactly when it marks no row at all. */
  lemma AlwaysInvisibleIff(t: Table, sweep: Op, unused: string, age: nat)
    requires Valid(t) && (sweep.ExpireOld? || sweep.ExpireTenant?) && unused !in t
    ensures AlwaysInvisible(t, sweep, age) <==> forall code :: code in t ==> !IsSwept(t[code], sweep)
  {
    if code :| code in t && IsSwept(t[code], sweep) {
      var later := sweep.now + age;
      ReissueShowsSweep(t, sweep, code, unused, age, later);
      assert DeletesAt(Reissue(t[code], unused, age, later), age);
    } else {
      forall ops, now | sweep.now <= now && DeletesAt(ops, age) ensures Invisible(t, sweep, ops, now) {
        SweepIsInvisible(t, sweep, ops, now);
      }
    }
  }

  lemma SameListing(t: Table, t': Table, since: int, now: int, tenant: string, client: Option<string>)
    requires AgreeOnFresh(t, t', since) && since <= now
    ensures Listing(t, tenant, client, now) <= Listing(t', tenant, client, now)
  {
    forall r | r in Listing(t, tenant, client, now) ensures r in Listing(t', tenant, client, now) {
      var code :| code in t && IsListed(t[code], tenant, client, now) && t[code] == r;
      assert !Gone(t, code, since);
      assert code in t' && t'[code] == r;
    }
  }

  /** Every listed code is pending; a pending code is listed unless it expires this very second. */
  lemma ListedArePending(t: Table, tenant: string, client: Option<string>, now: int)
    requires Valid(t)
    ensures forall code :: code in t ==>
              (t[code] in Listing(t, tenant, client, now) <==>
               && t[code].tenantId == Some(tenant) && (client.Some? ==> t[code].clientId == client)
               && PendingAt(t, code, now) && t[code].expiresAt != now)
  {}
}
