/**
Polling for a device's token: the service reads the row, stamps the poll time, and hands out the
stored token before marking the code consumed. These are separate statements, so polls of the same
code interleave. The code is meant for one-time use; this module proves exactly when it is.
*/
module DeviceTokenService {
  import opened Options
  import opened UserCodes
  import opened DeviceCodes
  import Runs = DeviceCodeRuns

  datatype Response =
    | NotFound
    | ExpiredToken
    | SlowDown
    | AuthorizationPending
    | AccessDenied
    | AlreadyUsed
    | TokenMissing
    | Token(row: DeviceCode)

  /** The answer given for a row, as it was read, once the poll itself has been accepted. */
  function Answer(r: DeviceCode): Response {
    match r.status
    case Pending => AuthorizationPending
    case Denied => AccessDenied
    case Authorized => if r.accessToken == None || r.accessToken.value == "" then TokenMissing else Token(r)
    case Consumed => AlreadyUsed
    case Expired => ExpiredToken
  }

  /** One whole poll with nothing in between. */
  function PollResponse(t: Table, code: string, interval: int, now: int): Response {
    if code !in t then NotFound
    else if t[code].IsExpired(now) then ExpiredToken
    else if !CanPoll(t[code], interval, now) then SlowDown
    else Answer(t[code])
  }

  /** What one whole poll leaves behind. */
  function AfterPoll(t: Table, code: string, interval: int, now: int): Table {
    match PollResponse(t, code, interval, now)
    case NotFound => t
    case SlowDown => t
    case Token(_) => Step(Step(t, Poll(code, interval, now)), UpdateStatus(code, Consumed, now))
    case _ =>
      if t[code].IsExpired(now) then Step(t, UpdateStatus(code, Expired, now)) else Step(t, Poll(code, interval, now))
  }

  /** Polled again before the interval is over. */
  predicate TooSoon(row: DeviceCode, interval: int, now: int) {
    row.lastPolledAt.Some? && now < row.lastPolledAt.value + interval
  }

  /** Each answer, by the columns of the row that was read. */
  ghost predicate AnswersRow(r: Response, row: DeviceCode, interval: int, now: int) {
    var accepted := now <= row.expiresAt && !TooSoon(row, interval, now);
    && (r.SlowDown? <==> now <= row.expiresAt && TooSoon(row, interval, now))
    && (r.AuthorizationPending? <==> accepted && row.status.Pending?)
    && (r.AccessDenied? <==> accepted && row.status.Denied?)
    && (r.AlreadyUsed? <==> accepted && row.status.Consumed?)
    && (r.ExpiredToken? <==> row.expiresAt < now || (accepted && row.status.Expired?))
    && (r.Token? <==> accepted && row.status.Authorized? && row.accessToken.Some? && row.accessToken.value != "")
    && (r.TokenMissing? <==>
        accepted && row.status.Authorized? && (row.accessToken.None? || row.accessToken.value == ""))
    && (r.Token? ==> r.row == row)
  }

  /** The row that a poll, other than one that came too soon, leaves behind. */
  function LeftByPoll(r: Response, row: DeviceCode, now: int): DeviceCode {
    if row.expiresAt < now then row.(status := Expired, updatedAt := now)
    else if r.Token? then row.(status := Consumed, lastPolledAt := Some(now), updatedAt := now)
    else row.(lastPolledAt := Some(now), updatedAt := now)
  }

  lemma PollAnswersRow(t: Table, code: string, interval: int, now: int)
    requires code in t
    ensures AnswersRow(PollResponse(t, code, interval, now), t[code], interval, now)
  {}

  method PollForToken(repo: DeviceAuthRepository, code: string, interval: int, now: int) returns (r: Response)
    requires Valid(repo.rows)
    modifies repo
    ensures r == PollResponse(old(repo.rows), code, interval, now)
    ensures repo.rows == AfterCall(old(repo.rows), PollCall(code, interval, now))
    ensures r.NotFound? <==> code !in old(repo.rows)
    ensures code in old(repo.rows) ==> AnswersRow(r, old(repo.rows)[code], interval, now)
    ensures r.NotFound? || r.SlowDown? ==> repo.rows == old(repo.rows)
    ensures code in old(repo.rows) && !r.SlowDown? ==>
      repo.rows == old(repo.rows)[code := LeftByPoll(r, old(repo.rows)[code], now)]
  {
    if code !in repo.rows {
      return NotFound;
    }
    var row := repo.rows[code];
    if row.IsExpired(now) {
      repo.SetStatus(code, Expired, now);
      return ExpiredToken;
    }
    var tooSoon := repo.UpdateLastPolled(code, interval, now);
    if tooSoon {
      return SlowDown;
    }
    r := Answer(row);
    if r.Token? {
      StepValid(old(repo.rows), Poll(code, interval, now));
      repo.MarkAsConsumed(code, now);
    }
  }

  // ---------------------------------------------------------------- the answers over the life of a code

  /** Until its expiry nothing has touched the status of the code, nor decided on it while it is pending. */
  ghost predicate Undisturbed(t: Table, ops: seq<Op>, code: string)
    requires code in t
  {
    forall i :: 0 <= i < |ops| ==>
      && ops[i].now <= t[code].expiresAt
      && !(ops[i].UpdateStatus? && ops[i].deviceCode == code)
      && (ops[i].DeleteExpired? ==> ops[i].olderThan >= 0)
      && (ops[i].Authorize? && t[code].status.Pending? ==>
            StripHyphens(ops[i].userCode) != StripHyphens(t[code].userCode))
  }

  /** The rows agree in everything but the time of the last poll. */
  predicate SameButPolled(r: DeviceCode, r': DeviceCode) {
    r' == r.(lastPolledAt := r'.lastPolledAt, updatedAt := r'.updatedAt)
  }

  lemma EffectUndisturbed(r: DeviceCode, op: Op)
    requires op.now <= r.expiresAt && !(op.UpdateStatus? && op.deviceCode == r.deviceCode)
    requires op.DeleteExpired? ==> op.olderThan >= 0
    requires op.Authorize? && r.status.Pending? ==> StripHyphens(op.userCode) != StripHyphens(r.userCode)
    ensures Effect(r, op).Some? && SameButPolled(r, Effect(r, op).value)
  {}

  lemma {:induction false} KeptUndisturbed(t: Table, ops: seq<Op>, code: string)
    requires Valid(t) && code in t && Undisturbed(t, ops, code)
    ensures var t' := Runs.ExecFrom(t, ops); Valid(t') && code in t' && SameButPolled(t[code], t'[code])
  {
    if ops != [] {
      var n := |ops| - 1;
      var before := Runs.ExecFrom(t, ops[..n]);
      KeptUndisturbed(t, ops[..n], code);
      StepValid(before, ops[n]);
      if !ops[n].Create? {
        EffectUndisturbed(before[code], ops[n]);
        Runs.StepOnRow(before, ops[n], code);
      }
    }
  }

  /** A poll after an undisturbed run, in time and not too soon. */
  ghost predicate PollsInTime(t: Table, ops: seq<Op>, code: string, interval: int, now: int) {
    && Valid(t) && code in t && Undisturbed(t, ops, code) && now <= t[code].expiresAt
    && code in Runs.ExecFrom(t, ops) && !TooSoon(Runs.ExecFrom(t, ops)[code], interval, now)
  }

  /** A code that has been issued and not decided on answers that the decision is pending. */
  lemma FreshCodeAnswersPending(t: Table, c: NewCode, at: int, ops: seq<Op>, interval: int, now: int)
    requires Valid(t) && c.deviceCode !in t && c.status.Pending?
    requires forall code :: code in t ==> t[code].userCode != c.userCode
    requires PollsInTime(Step(t, Create(c, at)), ops, c.deviceCode, interval, now)
    ensures PollResponse(Runs.ExecFrom(Step(t, Create(c, at)), ops), c.deviceCode, interval, now).AuthorizationPending?
  {
    var t' := Step(t, Create(c, at));
    KeptUndisturbed(t', ops, c.deviceCode);
    PollAnswersRow(Runs.ExecFrom(t', ops), c.deviceCode, interval, now);
  }

  /** After the decision the device is told of the denial, or gets the token made for exactly that grant. */
  lemma DecidedCodeAnswers(t: Table, code: string, typed: string, g: Grant, approve: bool, at: int, ops: seq<Op>,
                           interval: int, now: int)
    requires Valid(t) && code in t && t[code].status.Pending?
    requires StripHyphens(t[code].userCode) == StripHyphens(typed)
    requires PollsInTime(Step(t, Authorize(typed, g, approve, at)), ops, code, interval, now)
    ensures var r := PollResponse(Runs.ExecFrom(Step(t, Authorize(typed, g, approve, at)), ops), code, interval, now);
            && (!approve ==> r.AccessDenied?)
            && (approve && g.accessToken == "" ==> r.TokenMissing?)
            && (approve && g.accessToken != "" ==>
                  && r.Token? && r.row.deviceCode == code && r.row.details == t[code].details
                  && r.row.userId == Some(g.userId) && r.row.userEmail == Some(g.userEmail)
                  && r.row.tenantId == Some(g.tenantId) && r.row.tenantDomain == Some(g.tenantDomain)
                  && r.row.clientId == g.clientId && r.row.accessToken == Some(g.accessToken))
  {
    var t' := Step(t, Authorize(typed, g, approve, at));
    KeptUndisturbed(t', ops, code);
    PollAnswersRow(Runs.ExecFrom(t', ops), code, interval, now);
  }

  /** After the delivery of its token a code answers that it has been used. */
  lemma DeliveredCodeAnswersUsed(t: Table, code: string, at: int, ops: seq<Op>, interval: int, now: int)
    requires Valid(t) && PollResponse(t, code, interval, at).Token?
    requires PollsInTime(AfterPoll(t, code, interval, at), ops, code, interval, now)
    ensures PollResponse(Runs.ExecFrom(AfterPoll(t, code, interval, at), ops), code, interval, now).AlreadyUsed?
  {
    var t' := AfterPoll(t, code, interval, at);
    KeptUndisturbed(t', ops, code);
    PollAnswersRow(Runs.ExecFrom(t', ops), code, interval, now);
  }

  // ---------------------------------------------------------------- looking a code up and deciding on it

  datatype Verdict = InvalidCode | CodeExpired | AlreadyProcessed | TokenFailed | Good

  /** What the service says about the row it found for a typed code. */
  function LookupVerdict(r: DeviceCode, now: int): Verdict {
    if r.IsExpired(now) then CodeExpired else if r.status != Pending then AlreadyProcessed else Good
  }

  /** The verdict, by the columns of the row that was found. */
  predicate LooksUp(t: Table, code: string, typed: string, v: Verdict, now: int) {
    && code in t && StripHyphens(t[code].userCode) == StripHyphens(typed)
    && match v
       case CodeExpired => t[code].expiresAt < now
       case AlreadyProcessed => now <= t[code].expiresAt && !t[code].status.Pending?
       case Good => now <= t[code].expiresAt && t[code].status.Pending?
       case _ => false
  }

  /** An expired row is marked, any other is left as it is. */
  function LeftByLookup(row: DeviceCode, now: int): DeviceCode {
    if row.expiresAt < now then row.(status := Expired, updatedAt := now) else row
  }

  /** An expired row is marked so as a side effect of being looked up, whatever its status. */
  function AfterLookup(t: Table, code: string, now: int): Table {
    if code in t && t[code].IsExpired(now) then Step(t, UpdateStatus(code, Expired, now)) else t
  }

  function AfterDecision(t: Table, code: string, typed: string, g: Grant, approve: bool, now: int): Table {
    if code in t && LookupVerdict(t[code], now) == Good then Step(t, Authorize(typed, g, approve, now))
    else AfterLookup(t, code, now)
  }

  method ValidateUserCode(repo: DeviceAuthRepository, typed: string, now: int) returns (v: Verdict)
    requires Valid(repo.rows)
    modifies repo
    ensures v == InvalidCode <==> forall code :: code in old(repo.rows) ==>
      StripHyphens(old(repo.rows)[code].userCode) != StripHyphens(typed)
    ensures v == InvalidCode ==> repo.rows == old(repo.rows)
    ensures v != InvalidCode ==>
      exists code :: LooksUp(old(repo.rows), code, typed, v, now)
                     && repo.rows == AfterCall(old(repo.rows), LookupCall(code, now))
                     && repo.rows == old(repo.rows)[code := LeftByLookup(old(repo.rows)[code], now)]
  {
    var found := repo.FindByUserCode(typed);
    if found.None? {
      return InvalidCode;
    }
    var row := found.value;
    assert row.deviceCode in repo.rows && repo.rows[row.deviceCode] == row;
    if row.IsExpired(now) {
      repo.SetStatus(row.deviceCode, Expired, now);
    }
    v := LookupVerdict(row, now);
    assert LooksUp(old(repo.rows), row.deviceCode, typed, v, now);
  }

  /** `tokenOk` says whether the token for an approval could be made. */
  method AuthorizeDevice(repo: DeviceAuthRepository, typed: string, g: Grant, approve: bool, tokenOk: bool, now: int)
    returns (v: Verdict)
    requires Valid(repo.rows)
    modifies repo
    ensures v == InvalidCode <==> forall code :: code in old(repo.rows) ==>
      StripHyphens(old(repo.rows)[code].userCode) != StripHyphens(typed)
    ensures v == InvalidCode || v == TokenFailed ==> repo.rows == old(repo.rows)
    ensures v == TokenFailed ==> approve && !tokenOk
    ensures v == Good ==> exists code :: LooksUp(old(repo.rows), code, typed, v, now) && code in repo.rows
                                         && repo.rows[code].status == (if approve then Authorized else Denied)
                                         && repo.rows[code].accessToken == Some(g.accessToken)
    ensures approve && !tokenOk ==> v != Good
    ensures v != InvalidCode && v != TokenFailed ==>
      exists code :: LooksUp(old(repo.rows), code, typed, v, now)
                     && repo.rows == AfterCall(old(repo.rows), DecideCall(code, typed, g, approve, now))
  {
    v := ValidateUserCode(repo, typed, now);
    if v != Good {
      return;
    }
    assert repo.rows == old(repo.rows);
    if approve && !tokenOk {
      return TokenFailed;
    }
    var ok := repo.AuthorizeDeviceCode(typed, g, approve, now);
  }

  // ---------------------------------------------------------------- what calls do to the status

  datatype ServiceCall =
    | PollCall(code: string, interval: int, now: int)
    | LookupCall(code: string, now: int)
    | DecideCall(code: string, typed: string, grant: Grant, approve: bool, now: int)
    | Direct(op: Op)

  function AfterCall(t: Table, c: ServiceCall): Table {
    match c
    case PollCall(code, interval, now) => AfterPoll(t, code, interval, now)
    case LookupCall(code, now) => AfterLookup(t, code, now)
    case DecideCall(code, typed, g, approve, now) => AfterDecision(t, code, typed, g, approve, now)
    case Direct(op) => Step(t, op)
  }

  lemma StatusWritten(t: Table, code: string, status: Status, now: int)
    requires Valid(t) && code in t
    ensures var t' := Step(t, UpdateStatus(code, status, now)); code in t' && t'[code].status == status
  {
    Runs.StepOnRow(t, UpdateStatus(code, status, now), code);
  }

  lemma StatusPolled(t: Table, code: string, interval: int, now: int)
    requires Valid(t) && code in t
    ensures var t' := Step(t, Poll(code, interval, now)); Valid(t') && code in t' && t'[code].status == t[code].status
  {
    Runs.StepOnRow(t, Poll(code, interval, now), code);
    StepValid(t, Poll(code, interval, now));
  }

  lemma AfterPollIs(t: Table, code: string, interval: int, now: int)
    requires code in t
    ensures var r, polled := PollResponse(t, code, interval, now), Step(t, Poll(code, interval, now));
            AfterPoll(t, code, interval, now) ==
            if t[code].expiresAt < now then Step(t, UpdateStatus(code, Expired, now))
            else if r.SlowDown? then t
            else if r.Token? then Step(polled, UpdateStatus(code, Consumed, now)) else polled
  {
    PollAnswersRow(t, code, interval, now);
  }

  lemma StatusAfterPoll(t: Table, code: string, interval: int, now: int)
    requires Valid(t) && code in t
    ensures code in AfterPoll(t, code, interval, now)
    ensures AfterPoll(t, code, interval, now)[code].status ==
            if t[code].expiresAt < now then Expired
            else if PollResponse(t, code, interval, now).Token? then Consumed else t[code].status
  {
    AfterPollIs(t, code, interval, now);
    StatusPolled(t, code, interval, now);
    StatusWritten(t, code, Expired, now);
    StatusWritten(Step(t, Poll(code, interval, now)), code, Consumed, now);
  }

  lemma PollLowersRankIff(t: Table, code: string, interval: int, now: int)
    requires Valid(t) && code in t
    ensures code in AfterPoll(t, code, interval, now)
    ensures Runs.Rank(AfterPoll(t, code, interval, now)[code].status) < Runs.Rank(t[code].status) <==>
            t[code].status.Consumed? && t[code].expiresAt < now
  {
    StatusAfterPoll(t, code, interval, now);
    PollAnswersRow(t, code, interval, now);
  }

  lemma DecisionLowersRankIff(t: Table, code: string, typed: string, g: Grant, approve: bool, now: int)
    requires Valid(t) && code in t
    ensures code in AfterDecision(t, code, typed, g, approve, now)
    ensures Runs.Rank(AfterDecision(t, code, typed, g, approve, now)[code].status) < Runs.Rank(t[code].status) <==>
            t[code].status.Consumed? && t[code].expiresAt < now
  {}

  /** A service call lowers the rank of its code exactly when the code is consumed and past its expiry. */
  lemma CallLowersRankIff(t: Table, c: ServiceCall)
    requires Valid(t) && !c.Direct? && c.code in t
    ensures c.code in AfterCall(t, c)
    ensures Runs.Rank(AfterCall(t, c)[c.code].status) < Runs.Rank(t[c.code].status) <==>
            t[c.code].status.Consumed? && t[c.code].expiresAt < c.now
  {
    match c
    case PollCall(code, interval, now) => PollLowersRankIff(t, code, interval, now);
    case DecideCall(code, typed, g, approve, now) => DecisionLowersRankIff(t, code, typed, g, approve, now);
    case LookupCall(_, _) =>
  }

  /** The statements the program runs outside these calls: sweeps, deletes, listings and new codes. */
  ghost predicate Ordinary(c: ServiceCall, code: string) {
    c.Direct? ==>
      && !(c.op.Create? && c.op.code.deviceCode == code)
      && (c.op.UpdateStatus? ==> c.op.status == Consumed || c.op.status == Expired)
  }

  function AfterCalls(t: Table, calls: seq<ServiceCall>): Table {
    if calls == [] then t else AfterCall(AfterCalls(t, calls[..|calls| - 1]), calls[|calls| - 1])
  }

  lemma StepKeepsStage(t: Table, op: Op, code: string)
    requires Valid(t) && Ordinary(Direct(op), code) && code in Step(t, op)
    ensures Valid(Step(t, op)) && code in t && Runs.Stage(t[code].status) <= Runs.Stage(Step(t, op)[code].status)
  {
    StepValid(t, op);
    Runs.StepOnRow(t, op, code);
    Runs.EffectKeepsStage(t[code], op);
  }

  lemma CallKeepsStage(t: Table, c: ServiceCall, code: string)
    requires Valid(t) && Ordinary(c, code) && code in AfterCall(t, c)
    ensures Valid(AfterCall(t, c)) && code in t
    ensures Runs.Stage(t[code].status) <= Runs.Stage(AfterCall(t, c)[code].status)
  {
    match c {
      case PollCall(d, interval, now) =>
        var polled := Step(t, Poll(d, interval, now));
        if PollResponse(t, d, interval, now).Token? {
          StepValid(t, Poll(d, interval, now));
          StepKeepsStage(polled, UpdateStatus(d, Consumed, now), code);
          StepKeepsStage(t, Poll(d, interval, now), code);
        } else if d in t && t[d].IsExpired(now) {
          StepKeepsStage(t, UpdateStatus(d, Expired, now), code);
        } else if d in t && CanPoll(t[d], interval, now) {
          StepKeepsStage(t, Poll(d, interval, now), code);
        }
      case LookupCall(d, now) =>
        if d in t && t[d].IsExpired(now) {
          StepKeepsStage(t, UpdateStatus(d, Expired, now), code);
        }
      case DecideCall(d, typed, g, approve, now) =>
        if d in t && LookupVerdict(t[d], now) == Good {
          StepKeepsStage(t, Authorize(typed, g, approve, now), code);
        } else if d in t && t[d].IsExpired(now) {
          StepKeepsStage(t, UpdateStatus(d, Expired, now), code);
        }
      case Direct(op) => StepKeepsStage(t, op, code);
    }
  }

  /** Over every run of whole calls and ordinary statements a code only moves on: pending, decided, closed. */
  lemma {:induction false} CallsKeepStage(t: Table, calls: seq<ServiceCall>, code: string)
    requires Valid(t) && (forall i :: 0 <= i < |calls| ==> Ordinary(calls[i], code))
    requires code in AfterCalls(t, calls)
    ensures code in t && Runs.Stage(t[code].status) <= Runs.Stage(AfterCalls(t, calls)[code].status)
    ensures !t[code].status.Pending? ==> !AfterCalls(t, calls)[code].status.Pending?
    ensures AfterCalls(t, calls)[code].status.Authorized? ==> !t[code].status.Consumed? && !t[code].status.Expired?
  {
    if calls != [] {
      var n := |calls| - 1;
      CallsStayValid(t, calls[..n]);
      CallKeepsStage(AfterCalls(t, calls[..n]), calls[n], code);
      CallsKeepStage(t, calls[..n], code);
    }
  }

  lemma {:induction false} CallsStayValid(t: Table, calls: seq<ServiceCall>)
    requires Valid(t)
    ensures Valid(AfterCalls(t, calls))
  {
    if calls != [] {
      var n := |calls| - 1;
      CallsStayValid(t, calls[..n]);
      CallStaysValid(AfterCalls(t, calls[..n]), calls[n]);
    }
  }

  lemma CallStaysValid(t: Table, c: ServiceCall)
    requires Valid(t)
    ensures Valid(AfterCall(t, c))
  {
    match c {
      case PollCall(d, interval, now) =>
        StepValid(t, Poll(d, interval, now));
        StepValid(Step(t, Poll(d, interval, now)), UpdateStatus(d, Consumed, now));
        StepValid(t, UpdateStatus(d, Expired, now));
      case LookupCall(d, now) => StepValid(t, UpdateStatus(d, Expired, now));
      case DecideCall(d, typed, g, approve, now) =>
        StepValid(t, Authorize(typed, g, approve, now));
        StepValid(t, UpdateStatus(d, Expired, now));
      case Direct(op) => StepValid(t, op);
    }
  }

  // ---------------------------------------------------------------- interleaved polls

  type Thread = nat

  /** A poll has read the row, or has been accepted and holds a token to deliver. */
  datatype Place =
    | Idle
    | HasRead(code: string, row: DeviceCode, readAt: int)
    | MustExpire(code: string)
    | HasToken(code: string, readAt: int, stampedAt: int)

  datatype Delivery = Delivery(code: string, readAt: int, stampedAt: int, at: int)

  datatype Service = Service(clock: int, rows: Table, places: map<Thread, Place>, deliveries: seq<Delivery>)

  datatype Action =
    | Tick(elapsed: nat)
    | Read(t: Thread, code: string)
    | WriteExpired(t: Thread)
    | Stamp(t: Thread)
    | Consume(t: Thread)
    | Other(op: Op)

  function At(s: Service, t: Thread): Place {
    if t in s.places then s.places[t] else Idle
  }

  function Move(s: Service, t: Thread, p: Place): Service {
    s.(places := s.places[t := p])
  }

  function AfterRead(s: Service, t: Thread, code: string): Service {
    if code !in s.rows then s
    else if s.rows[code].IsExpired(s.clock) then Move(s, t, MustExpire(code))
    else Move(s, t, HasRead(code, s.rows[code], s.clock))
  }

  function AfterStamp(s: Service, t: Thread, p: Place, interval: int): Service
    requires p.HasRead?
  {
    var accepted := p.code in s.rows && CanPoll(s.rows[p.code], interval, s.clock);
    Move(s, t, if accepted && Answer(p.row).Token? then HasToken(p.code, p.readAt, s.clock) else Idle)
    .(rows := Step(s.rows, Poll(p.code, interval, s.clock)))
  }

  function AfterConsume(s: Service, t: Thread, p: Place): Service
    requires p.HasToken?
  {
    Move(s, t, Idle).(
      rows := Step(s.rows, UpdateStatus(p.code, Consumed, s.clock)),
      deliveries := s.deliveries + [Delivery(p.code, p.readAt, p.stampedAt, s.clock)])
  }

  /** One statement of one poll, or any other statement against the table; otherwise nothing. */
  function Next(s: Service, a: Action, interval: int): Service {
    match a
    case Tick(elapsed) => s.(clock := s.clock + elapsed)
    case Read(t, code) => if At(s, t).Idle? then AfterRead(s, t, code) else s
    case WriteExpired(t) =>
      if At(s, t).MustExpire?
      then Move(s, t, Idle).(rows := Step(s.rows, UpdateStatus(At(s, t).code, Expired, s.clock))) else s
    case Stamp(t) => if At(s, t).HasRead? then AfterStamp(s, t, At(s, t), interval) else s
    case Consume(t) => if At(s, t).HasToken? then AfterConsume(s, t, At(s, t)) else s
    case Other(op) => s.(rows := Step(s.rows, op))
  }

  function Run(start: Table, clock: int, actions: seq<Action>, interval: int): Service {
    if actions == [] then Service(clock, start, map[], [])
    else Next(Run(start, clock, actions[..|actions| - 1], interval), actions[|actions| - 1], interval)
  }

  /**
  The other statements of the program: they never issue the code again, never set a status back to
  pending or to authorized, and poll only through the service.
  */
  ghost predicate Behaves(a: Action, code: string) {
    a.Other? ==>
      && !(a.op.Create? && a.op.code.deviceCode == code)
      && (a.op.UpdateStatus? ==> a.op.status != Pending && a.op.status != Authorized)
      && !a.op.Poll?
  }

  // ---------------------------------------------------------------- at most one delivery

  function Delivered(log: seq<Delivery>, code: string): nat {
    if log == [] then 0
    else Delivered(log[..|log| - 1], code) + (if log[|log| - 1].code == code then 1 else 0)
  }

  /** Every delivered poll of the code took at most `duration` from its read to its delivery. */
  ghost predicate Timely(log: seq<Delivery>, code: string, duration: int) {
    forall i :: 0 <= i < |log| && log[i].code == code ==> log[i].at - log[i].readAt <= duration
  }

  /** Two poll stamps are a full interval apart. */
  predicate Apart(x: int, y: int, interval: int) {
    x + interval <= y || y + interval <= x
  }

  /** The row does not let another token out: it is gone, or neither pending nor authorized. */
  predicate Spent(t: Table, code: string) {
    code in t ==> t[code].status != Pending && t[code].status != Authorized
  }

  /** The row remembers a stamp at least as late as this one. */
  predicate Remembered(t: Table, code: string, stamp: int) {
    code in t ==> t[code].lastPolledAt.Some? && stamp <= t[code].lastPolledAt.value
  }

  ghost predicate ThreadSound(s: Service, t: Thread, code: string) {
    match At(s, t)
    case HasRead(c, row, readAt) => readAt <= s.clock
    case HasToken(c, readAt, stampedAt) =>
      readAt <= stampedAt <= s.clock && (c == code ==> Remembered(s.rows, code, stampedAt))
    case _ => true
  }

  predicate HoldsToken(p: Place, code: string) {
    p.HasToken? && p.code == code
  }

  ghost predicate ThreadsApart(s: Service, code: string, interval: int) {
    forall t: Thread, u: Thread :: t != u && HoldsToken(At(s, t), code) && HoldsToken(At(s, u), code) ==>
      Apart(At(s, t).stampedAt, At(s, u).stampedAt, interval)
  }

  /** A token still held, or a row still waiting to be stamped, was read before the delivery. */
  ghost predicate AfterDelivery(s: Service, d: Delivery, t: Thread, interval: int) {
    match At(s, t)
    case HasRead(c, row, readAt) => c == d.code && row.status == Authorized ==> readAt <= d.at
    case HasToken(c, readAt, stampedAt) =>
      c == d.code ==> readAt <= d.at && Apart(stampedAt, d.stampedAt, interval)
    case _ => true
  }

  ghost predicate DeliverySound(s: Service, d: Delivery, interval: int) {
    && d.readAt <= d.stampedAt <= d.at <= s.clock
    && Spent(s.rows, d.code) && Remembered(s.rows, d.code, d.stampedAt)
    && forall t: Thread :: AfterDelivery(s, d, t, interval)
  }

  ghost predicate Inv(s: Service, code: string, interval: int) {
    && Valid(s.rows)
    && (forall t: Thread :: ThreadSound(s, t, code))
    && ThreadsApart(s, code, interval)
    && (forall i :: 0 <= i < |s.deliveries| && s.deliveries[i].code == code ==>
          DeliverySound(s, s.deliveries[i], interval))
  }

  lemma OthersStay(s: Service, a: Action, interval: int)
    ensures forall u: Thread :: a.Tick? || a.Other? || u != a.t ==> At(Next(s, a, interval), u) == At(s, u)
  {}

  /** The statement an action runs against the table, if any. */
  function Statement(s: Service, a: Action, interval: int): Option<Op> {
    match a
    case Tick(_) => None
    case Read(_, _) => None
    case WriteExpired(t) => if At(s, t).MustExpire? then Some(UpdateStatus(At(s, t).code, Expired, s.clock)) else None
    case Stamp(t) => if At(s, t).HasRead? then Some(Poll(At(s, t).code, interval, s.clock)) else None
    case Consume(t) => if At(s, t).HasToken? then Some(UpdateStatus(At(s, t).code, Consumed, s.clock)) else None
    case Other(op) => Some(op)
  }

  lemma RowsAfter(s: Service, a: Action, interval: int)
    ensures Next(s, a, interval).rows
         == match Statement(s, a, interval) case None => s.rows case Some(op) => Step(s.rows, op)
  {}

  lemma StaysSpent(t: Table, op: Op, code: string)
    requires Valid(t) && (op.Poll? || Behaves(Other(op), code))
    ensures Spent(t, code) ==> Spent(Step(t, op), code)
  {}

  lemma StaysRemembered(t: Table, op: Op, code: string, stamp: int)
    requires !(op.Create? && op.code.deviceCode == code)
    requires op.Poll? ==> stamp <= op.now
    ensures Remembered(t, code, stamp) ==> Remembered(Step(t, op), code, stamp)
  {}

  lemma ThreadsStaySound(s: Service, a: Action, code: string, interval: int)
    requires Inv(s, code, interval) && Behaves(a, code)
    ensures forall t: Thread :: ThreadSound(Next(s, a, interval), t, code)
  {
    var s' := Next(s, a, interval);
    OthersStay(s, a, interval);
    RowsAfter(s, a, interval);
    forall t: Thread ensures ThreadSound(s', t, code) {
      assert ThreadSound(s, t, code);
      if Statement(s, a, interval).Some? && At(s, t).HasToken? {
        StaysRemembered(s.rows, Statement(s, a, interval).value, code, At(s, t).stampedAt);
      }
    }
  }

  lemma ThreadsStayApart(s: Service, a: Action, code: string, interval: int)
    requires Inv(s, code, interval) && Behaves(a, code)
    ensures ThreadsApart(Next(s, a, interval), code, interval)
  {
    var s' := Next(s, a, interval);
    OthersStay(s, a, interval);
    forall t: Thread, u: Thread | t != u && HoldsToken(At(s', t), code) && HoldsToken(At(s', u), code)
      ensures Apart(At(s', t).stampedAt, At(s', u).stampedAt, interval)
    {
      assert ThreadSound(s, t, code) && ThreadSound(s, u, code);
      assert HoldsToken(At(s, t), code) || HoldsToken(At(s, u), code);
    }
  }

  lemma DeliveryStaysSound(s: Service, a: Action, d: Delivery, interval: int)
    requires Inv(s, d.code, interval) && Behaves(a, d.code) && DeliverySound(s, d, interval)
    ensures DeliverySound(Next(s, a, interval), d, interval)
  {
    var s' := Next(s, a, interval);
    OthersStay(s, a, interval);
    RowsAfter(s, a, interval);
    if Statement(s, a, interval).Some? {
      StaysSpent(s.rows, Statement(s, a, interval).value, d.code);
      StaysRemembered(s.rows, Statement(s, a, interval).value, d.code, d.stampedAt);
    }
    forall t: Thread ensures AfterDelivery(s', d, t, interval) {
      assert AfterDelivery(s, d, t, interval);
    }
  }

  lemma NewDeliverySound(s: Service, t: Thread, code: string, interval: int)
    requires Inv(s, code, interval) && HoldsToken(At(s, t), code)
    ensures var p := At(s, t);
            DeliverySound(Next(s, Consume(t), interval), Delivery(code, p.readAt, p.stampedAt, s.clock), interval)
  {
    var p, s' := At(s, t), Next(s, Consume(t), interval);
    var d := Delivery(code, p.readAt, p.stampedAt, s.clock);
    OthersStay(s, Consume(t), interval);
    assert ThreadSound(s, t, code);
    StaysRemembered(s.rows, UpdateStatus(code, Consumed, s.clock), code, p.stampedAt);
    forall u: Thread ensures AfterDelivery(s', d, u, interval) {
      assert ThreadSound(s, u, code);
      assert u != t && HoldsToken(At(s, u), code) ==> Apart(At(s, u).stampedAt, p.stampedAt, interval);
    }
  }

  lemma StaysInv(s: Service, a: Action, code: string, interval: int)
    requires Inv(s, code, interval) && Behaves(a, code)
    ensures Inv(Next(s, a, interval), code, interval)
  {
    var s' := Next(s, a, interval);
    RowsAfter(s, a, interval);
    if Statement(s, a, interval).Some? {
      StepValid(s.rows, Statement(s, a, interval).value);
    }
    ThreadsStaySound(s, a, code, interval);
    ThreadsStayApart(s, a, code, interval);
    forall i | 0 <= i < |s'.deliveries| && s'.deliveries[i].code == code
      ensures DeliverySound(s', s'.deliveries[i], interval)
    {
      if i < |s.deliveries| {
        DeliveryStaysSound(s, a, s.deliveries[i], interval);
      } else {
        NewDeliverySound(s, a.t, code, interval);
      }
    }
  }

  lemma {:induction false} RunInv(start: Table, clock: int, actions: seq<Action>, code: string, interval: int)
    requires Valid(start) && forall i :: 0 <= i < |actions| ==> Behaves(actions[i], code)
    ensures Inv(Run(start, clock, actions, interval), code, interval)
  {
    if actions != [] {
      var n := |actions| - 1;
      RunInv(start, clock, actions[..n], code, interval);
      StaysInv(Run(start, clock, actions[..n], interval), actions[n], code, interval);
    }
  }

  lemma {:induction false} SomeDelivery(log: seq<Delivery>, code: string) returns (i: nat)
    requires Delivered(log, code) > 0
    ensures i < |log| && log[i].code == code
  {
    var n := |log| - 1;
    if log[n].code == code {
      i := n;
    } else {
      i := SomeDelivery(log[..n], code);
    }
  }

  /** A short poll stamped a full interval away from a delivered short poll cannot have read before that delivery. */
  lemma TooLateToDeliver(s: Service, t: Thread, d: Delivery, interval: int, duration: int)
    requires HoldsToken(At(s, t), d.code) && ThreadSound(s, t, d.code)
    requires d.readAt <= d.stampedAt <= d.at <= s.clock && d.at - d.readAt <= duration
    requires s.clock - At(s, t).readAt <= duration && 2 * duration < interval
    ensures !AfterDelivery(s, d, t, interval)
  {}

  /** Whoever delivers in time after a short poll is the first: a second delivery needs a full interval. */
  lemma FirstToDeliver(s: Service, t: Thread, code: string, interval: int, duration: int)
    requires Inv(s, code, interval) && HoldsToken(At(s, t), code) && Timely(s.deliveries, code, duration)
    requires s.clock - At(s, t).readAt <= duration && 2 * duration < interval
    ensures Delivered(s.deliveries, code) == 0
  {
    assert ThreadSound(s, t, code);
    if Delivered(s.deliveries, code) > 0 {
      var i := SomeDelivery(s.deliveries, code);
      TooLateToDeliver(s, t, s.deliveries[i], interval, duration);
      assert false;
    }
  }

  lemma DeliveriesAfter(s: Service, a: Action, code: string, interval: int)
    ensures var more := if a.Consume? && HoldsToken(At(s, a.t), code) then 1 else 0;
            Delivered(Next(s, a, interval).deliveries, code) == Delivered(s.deliveries, code) + more
  {
    if a.Consume? && At(s, a.t).HasToken? {
      var p := At(s, a.t);
      DeliveredAppend(s.deliveries, Delivery(p.code, p.readAt, p.stampedAt, s.clock), code);
    }
  }

  lemma DeliveredAppend(log: seq<Delivery>, d: Delivery, code: string)
    ensures Delivered(log + [d], code) == Delivered(log, code) + (if d.code == code then 1 else 0)
  {
    assert (log + [d])[..|log|] == log;
  }

  lemma {:induction false} DeliveredOnce(start: Table, clock: int, actions: seq<Action>, code: string,
                                         interval: int, duration: int)
    requires Valid(start) && forall i :: 0 <= i < |actions| ==> Behaves(actions[i], code)
    requires Timely(Run(start, clock, actions, interval).deliveries, code, duration) && 2 * duration < interval
    ensures Delivered(Run(start, clock, actions, interval).deliveries, code) <= 1
  {
    if actions != [] {
      var n := |actions| - 1;
      var s, a := Run(start, clock, actions[..n], interval), actions[n];
      var log, log' := s.deliveries, Next(s, a, interval).deliveries;
      assert forall i :: 0 <= i < |log| ==> log'[i] == log[i];
      DeliveredOnce(start, clock, actions[..n], code, interval, duration);
      DeliveriesAfter(s, a, code, interval);
      if a.Consume? && HoldsToken(At(s, a.t), code) {
        RunInv(start, clock, actions[..n], code, interval);
        assert log'[|log|].at - log'[|log|].readAt <= duration;
        FirstToDeliver(s, a.t, code, interval, duration);
      }
    }
  }

  // ---------------------------------------------------------------- when polls take longer

  function Max(x: int, y: int): int {
    if x < y then y else x
  }

  const ISSUED := Details("https://app.example/activate", "", ["openid"], "{}")
  const APPROVAL := Grant("user", "user@example", "tenant", "app.example", None, "token")

  function Requested(expiresAt: int): NewCode {
    NewCode("c", "AAAA-AAAA", ISSUED, None, None, Pending, expiresAt)
  }

  /** A code is issued and approved, and stays readable until `expiresAt`. */
  function Approved(expiresAt: int): seq<Op> {
    [Create(Requested(expiresAt), 0), Authorize("AAAA-AAAA", APPROVAL, true, 0)]
  }

  function GrantedRow(expiresAt: int): DeviceCode {
    WithGrant(NewRow(Requested(expiresAt), 0), APPROVAL, true, 0)
  }

  lemma ApprovedTable(expiresAt: int)
    ensures Runs.Exec(Approved(expiresAt)) == map["c" := GrantedRow(expiresAt)]
  {
    var create := Create(Requested(expiresAt), 0);
    assert [create][..0] == [];
    assert Approved(expiresAt)[..1] == [create];
    assert Runs.Exec([create]) == map["c" := NewRow(Requested(expiresAt), 0)];
  }

  /** When the second of two slow polls reads, and when it is accepted. */
  function SecondRead(interval: int, duration: nat): nat {
    Max(0, interval - duration)
  }

  function SecondStamp(interval: int, duration: nat): nat {
    Max(SecondRead(interval, duration), interval)
  }

  lemma RunOne(start: Table, before: seq<Action>, a: Action, interval: int)
    ensures Run(start, 0, before + [a], interval) == Next(Run(start, 0, before, interval), a, interval)
  {
    assert (before + [a])[..|before|] == before;
  }

  function FirstPoll(x: nat): seq<Action> {
    [Read(0, "c")] + [Stamp(0)] + [Tick(x)]
  }

  function Overlap(x: nat, y: nat): seq<Action>
    requires x <= y
  {
    FirstPoll(x) + [Read(1, "c")] + [Consume(0)] + [Tick(y - x)]
  }

  function BothPolls(x: nat, y: nat): seq<Action>
    requires x <= y
  {
    Overlap(x, y) + [Stamp(1)] + [Consume(1)]
  }

  lemma AfterFirstPoll(y: nat, x: nat, interval: int) returns (s: Service)
    requires x <= y
    ensures s == Run(map["c" := GrantedRow(y)], 0, FirstPoll(x), interval)
    ensures s.clock == x && s.deliveries == []
    ensures s.rows == map["c" := GrantedRow(y).(lastPolledAt := Some(0))]
    ensures s.places == map[0 := HasToken("c", 0, 0)]
  {
    var start := map["c" := GrantedRow(y)];
    s := Run(start, 0, FirstPoll(x), interval);
    assert [Read(0, "c")][..0] == [];
    RunOne(start, [Read(0, "c")], Stamp(0), interval);
    RunOne(start, [Read(0, "c")] + [Stamp(0)], Tick(x), interval);
    assert s.rows == map["c" := GrantedRow(y).(lastPolledAt := Some(0))];
    assert s.places == map[0 := HasToken("c", 0, 0)];
  }

  lemma AfterOverlap(y: nat, x: nat, interval: int) returns (s: Service)
    requires x <= y
    ensures s == Run(map["c" := GrantedRow(y)], 0, Overlap(x, y), interval)
    ensures s.clock == y && s.deliveries == [Delivery("c", 0, 0, x)]
    ensures "c" in s.rows && s.rows["c"].lastPolledAt == Some(0)
    ensures At(s, 1) == HasRead("c", GrantedRow(y).(lastPolledAt := Some(0)), x)
  {
    var start := map["c" := GrantedRow(y)];
    s := AfterFirstPoll(y, x, interval);
    RunOne(start, FirstPoll(x), Read(1, "c"), interval);
    RunOne(start, FirstPoll(x) + [Read(1, "c")], Consume(0), interval);
    RunOne(start, FirstPoll(x) + [Read(1, "c")] + [Consume(0)], Tick(y - x), interval);
    s := Next(Next(Next(s, Read(1, "c"), interval), Consume(0), interval), Tick(y - x), interval);
  }

  lemma AfterBothPolls(y: nat, x: nat, interval: int)
    requires x <= y && interval <= y
    ensures Run(map["c" := GrantedRow(y)], 0, BothPolls(x, y), interval).deliveries
         == [Delivery("c", 0, 0, x), Delivery("c", x, y, y)]
  {
    var start := map["c" := GrantedRow(y)];
    var s := AfterOverlap(y, x, interval);
    RunOne(start, Overlap(x, y), Stamp(1), interval);
    RunOne(start, Overlap(x, y) + [Stamp(1)], Consume(1), interval);
  }

  /** If two polls of the allowed duration can cover the interval, both can deliver the same token. */
  lemma SlowPollsDeliverTwice(interval: int, duration: nat) returns (ops: seq<Op>, actions: seq<Action>)
    requires interval <= 2 * duration
    ensures forall i :: 0 <= i < |actions| ==> Behaves(actions[i], "c")
    ensures Timely(Run(Runs.Exec(ops), 0, actions, interval).deliveries, "c", duration)
    ensures Delivered(Run(Runs.Exec(ops), 0, actions, interval).deliveries, "c") == 2
  {
    var x, y := SecondRead(interval, duration), SecondStamp(interval, duration);
    ops, actions := Approved(y), BothPolls(x, y);
    ApprovedTable(y);
    AfterBothPolls(y, x, interval);
    var first, second := Delivery("c", 0, 0, x), Delivery("c", x, y, y);
    assert [first, second][..1] == [first];
    assert Delivered([first], "c") == 1;
  }

  /** Every action of the run behaves, and every delivered poll of the code takes at most `duration`. */
  ghost predicate Admissible(start: Table, clock: int, actions: seq<Action>, code: string, interval: int,
                             duration: int) {
    && (forall i :: 0 <= i < |actions| ==> Behaves(actions[i], code))
    && Timely(Run(start, clock, actions, interval).deliveries, code, duration)
  }

  /** From no table the program can reach does such a run deliver the code's token twice. */
  ghost predicate OneTimeUse(interval: int, duration: int) {
    forall ops: seq<Op>, clock: int, actions: seq<Action>, code: string ::
      Admissible(Runs.Exec(ops), clock, actions, code, interval, duration) ==>
        Delivered(Run(Runs.Exec(ops), clock, actions, interval).deliveries, code) <= 1
  }

  /**
  A device code is good for one token in every interleaving exactly when twice the longest poll is
  below the interval.
  */
  lemma OneTimeUseIffPollsAreShort(interval: int, duration: nat)
    ensures OneTimeUse(interval, duration) <==> 2 * duration < interval
  {
    if 2 * duration < interval {
      forall ops: seq<Op>, clock: int, actions: seq<Action>, code: string |
        Admissible(Runs.Exec(ops), clock, actions, code, interval, duration)
        ensures Delivered(Run(Runs.Exec(ops), clock, actions, interval).deliveries, code) <= 1
      {
        Runs.ExecValid(ops);
        DeliveredOnce(Runs.Exec(ops), clock, actions, code, interval, duration);
      }
    } else {
      var ops, actions := SlowPollsDeliverTwice(interval, duration);
      assert Admissible(Runs.Exec(ops), 0, actions, "c", interval, duration);
    }
  }
}
