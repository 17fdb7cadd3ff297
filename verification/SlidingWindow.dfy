/**
The in-memory sliding-window rate limiter as a value-level specification, and what its decisions
mean over whole runs.

A store maps a key to the timestamps it remembers. Two atomic steps change it: a limit check, which
prunes the key's timestamps to the window and records the request when it is admitted, and the
background sweep, which prunes every key to two minutes and drops keys left empty. Times are integer
nanoseconds on a clock that never runs backwards.
*/
module SlidingWindow {
  const SECOND := 1_000_000_000
  const MINUTE := 60 * SECOND

  /** How long the background sweep keeps a timestamp. */
  const RETENTION := 2 * MINUTE

  /** The timestamps younger than `window` at `now`, in their original order. */
  function Younger(ts: seq<int>, now: int, window: int): (r: seq<int>)
    ensures |r| <= |ts|
  {
    if ts == [] then []
    else
      var rest := Younger(ts[..|ts| - 1], now, window);
      var last := ts[|ts| - 1];
      if now - last < window then rest + [last] else rest
  }

  lemma YoungerAppend(ts: seq<int>, x: int, now: int, window: int)
    ensures Younger(ts + [x], now, window)
         == Younger(ts, now, window) + (if now - x < window then [x] else [])
  {
    assert (ts + [x])[..|ts|] == ts;
  }

  /** Pruning early, and to a longer window, never changes a later pruning to a shorter one. */
  lemma {:induction false} YoungerTwice(ts: seq<int>, early: int, wide: int, late: int, narrow: int)
    requires early <= late && narrow <= wide
    ensures Younger(Younger(ts, early, wide), late, narrow) == Younger(ts, late, narrow)
  {
    if ts != [] {
      var init, last := ts[..|ts| - 1], ts[|ts| - 1];
      YoungerTwice(init, early, wide, late, narrow);
      YoungerAppend(Younger(init, early, wide), last, late, narrow);
    }
  }

  // ---------------------------------------------------------------- the atomic steps

  type Store = map<string, seq<int>>

  datatype Event =
    | Check(key: string, limit: int, window: int, at: int)
    | Sweep(at: int)

  function Stamps(s: Store, key: string): seq<int> {
    if key in s then s[key] else []
  }

  predicate Admits(s: Store, key: string, limit: int, window: int, now: int) {
    |Younger(Stamps(s, key), now, window)| < limit
  }

  function AfterCheck(s: Store, key: string, limit: int, window: int, now: int): Store {
    var valid := Younger(Stamps(s, key), now, window);
    s[key := if |valid| < limit then valid + [now] else valid]
  }

  function AfterSweep(s: Store, now: int): Store {
    map key | key in s && Younger(s[key], now, RETENTION) != [] :: Younger(s[key], now, RETENTION)
  }

  /** The store with one key swept. */
  function SweptAt(s: Store, key: string, now: int): Store
    requires key in s
  {
    if Younger(s[key], now, RETENTION) == [] then s - {key} else s[key := Younger(s[key], now, RETENTION)]
  }

  /** The store when only the keys outside `todo` have been swept. */
  ghost function PartlySwept(s: Store, todo: set<string>, now: int): Store {
    map key | key in s && (key in todo || Younger(s[key], now, RETENTION) != []) ::
      if key in todo then s[key] else Younger(s[key], now, RETENTION)
  }

  lemma SweepStep(s: Store, todo: set<string>, key: string, now: int)
    requires key in todo && todo <= s.Keys
    ensures key in PartlySwept(s, todo, now)
    ensures SweptAt(PartlySwept(s, todo, now), key, now) == PartlySwept(s, todo - {key}, now)
    ensures todo - {key} <= PartlySwept(s, todo - {key}, now).Keys
  {}

  function After(s: Store, e: Event): Store {
    match e
    case Check(key, limit, window, at) => AfterCheck(s, key, limit, window, at)
    case Sweep(at) => AfterSweep(s, at)
  }

  // ---------------------------------------------------------------- runs

  /** The store after a run that starts with nothing remembered. */
  function Run(events: seq<Event>): Store {
    if events == [] then map[]
    else After(Run(events[..|events| - 1]), events[|events| - 1])
  }

  predicate Admitted(events: seq<Event>, i: nat)
    requires i < |events|
  {
    var e := events[i];
    e.Check? && Admits(Run(events[..i]), e.key, e.limit, e.window, e.at)
  }

  /** The full history of admissions of one key: nothing is ever pruned from it. */
  function Admissions(events: seq<Event>, key: string): seq<int> {
    if events == [] then []
    else
      var n := |events| - 1;
      var earlier := Admissions(events[..n], key);
      var e := events[n];
      if e.Check? && e.key == key && Admits(Run(events[..n]), e.key, e.limit, e.window, e.at)
      then earlier + [e.at] else earlier
  }

  lemma RunAppend(before: seq<Event>, e: Event, key: string)
    ensures Run(before + [e]) == After(Run(before), e)
    ensures Admissions(before + [e], key)
         == Admissions(before, key)
          + (if e.Check? && e.key == key && Admits(Run(before), e.key, e.limit, e.window, e.at) then [e.at] else [])
  {
    assert (before + [e])[..|before|] == before;
    assert (before + [e])[|before|] == e;
  }

  lemma AdmissionsLast(events: seq<Event>, n: nat, key: string)
    requires |events| == n + 1
    ensures Admissions(events, key)
         == Admissions(events[..n], key)
          + (if events[n].Check? && events[n].key == key && Admitted(events, n) then [events[n].at] else [])
  {}

  ghost predicate Ordered(events: seq<Event>) {
    forall i, j :: 0 <= i < j < |events| ==> events[i].at <= events[j].at
  }

  /** Every check of `key` uses the same window, and no limit above `limit`. */
  ghost predicate UsedWith(events: seq<Event>, key: string, limit: int, window: int) {
    forall i :: 0 <= i < |events| && events[i].Check? && events[i].key == key ==>
      events[i].limit <= limit && events[i].window == window
  }

  /** What the store remembers and what really happened agree on the window, now and later. */
  ghost predicate Remembers(stamps: seq<int>, history: seq<int>, window: int, since: int) {
    forall now :: since <= now ==> Younger(stamps, now, window) == Younger(history, now, window)
  }

  lemma CheckRemembers(stamps: seq<int>, history: seq<int>, window: int, since: int, at: int, admit: bool)
    requires since <= at
    requires Remembers(stamps, history, window, since)
    ensures Remembers(Younger(stamps, at, window) + (if admit then [at] else []),
                      history + (if admit then [at] else []), window, at)
  {
    var pruned := Younger(stamps, at, window);
    var stamps' := pruned + (if admit then [at] else []);
    var history' := history + (if admit then [at] else []);
    forall now | at <= now
      ensures Younger(stamps', now, window) == Younger(history', now, window)
    {
      YoungerTwice(stamps, at, window, now, window);
      if admit {
        YoungerAppend(pruned, at, now, window);
        YoungerAppend(history, at, now, window);
      } else {
        assert stamps' == pruned && history' == history;
      }
    }
  }

  lemma SweepRemembers(stamps: seq<int>, history: seq<int>, window: int, since: int, at: int, later: int)
    requires since <= later && at <= later && window <= RETENTION
    requires Remembers(stamps, history, window, since)
    ensures Remembers(Younger(stamps, at, RETENTION), history, window, later)
  {
    forall now | later <= now
      ensures Younger(Younger(stamps, at, RETENTION), now, window) == Younger(history, now, window)
    {
      YoungerTwice(stamps, at, RETENTION, now, window);
    }
  }

  /** Over every run, pruning and sweeping lose nothing a decision can see. */
  lemma {:induction false} RunRemembers(events: seq<Event>, key: string, limit: int, window: int, since: int)
    requires Ordered(events) && UsedWith(events, key, limit, window) && window <= RETENTION
    requires events != [] ==> since == events[|events| - 1].at
    ensures Remembers(Stamps(Run(events), key), Admissions(events, key), window, since)
  {
    if events != [] {
      var n := |events| - 1;
      var before, e := events[..n], events[n];
      var earlier := if n == 0 then e.at else before[n - 1].at;
      RunRemembers(before, key, limit, window, earlier);
      var s, history := Run(before), Admissions(before, key);
      match e {
        case Check(k, lim, w, at) =>
          if k == key {
            var admit := Admits(s, key, lim, window, at);
            CheckRemembers(Stamps(s, key), history, window, earlier, at, admit);
            var pruned := Younger(Stamps(s, key), at, window);
            assert Stamps(Run(events), key) == pruned + (if admit then [at] else []);
            assert Admissions(events, key) == history + (if admit then [at] else []);
          } else {
            assert Stamps(Run(events), key) == Stamps(s, key);
          }
        case Sweep(at) =>
          SweepRemembers(Stamps(s, key), history, window, earlier, at, at);
      }
    }
  }

  /**
  The limiter is exact: a check is admitted if and only if fewer than `limit` of all requests ever
  admitted for its key are younger than the window.
  */
  lemma DecisionIsExact(events: seq<Event>, i: nat, limit: int, window: int)
    requires i < |events| && events[i].Check?
    requires Ordered(events) && UsedWith(events, events[i].key, limit, window) && window <= RETENTION
    ensures Admitted(events, i) <==>
            |Younger(Admissions(events[..i], events[i].key), events[i].at, window)| < events[i].limit
  {
    var e := events[i];
    var since := if i == 0 then e.at else events[i - 1].at;
    RunRemembers(events[..i], e.key, limit, window, since);
    assert Remembers(Stamps(Run(events[..i]), e.key), Admissions(events[..i], e.key), window, since);
    assert since <= e.at;
  }

  // ---------------------------------------------------------------- the bound

  /** How many of `ts` lie in the half-open interval from `from` up to `to`. */
  function CountIn(ts: seq<int>, from: int, to: int): nat {
    if ts == [] then 0
    else CountIn(ts[..|ts| - 1], from, to) + (if from <= ts[|ts| - 1] < to then 1 else 0)
  }

  lemma CountAppend(ts: seq<int>, x: int, from: int, to: int)
    ensures CountIn(ts + [x], from, to) == CountIn(ts, from, to) + (if from <= x < to then 1 else 0)
  {
    assert (ts + [x])[..|ts|] == ts;
  }

  lemma {:induction false} CountWithinWindow(ts: seq<int>, from: int, window: int, now: int)
    requires from <= now < from + window
    ensures CountIn(ts, from, from + window) <= |Younger(ts, now, window)|
  {
    if ts != [] {
      CountWithinWindow(ts[..|ts| - 1], from, window, now);
    }
  }

  /** How many of `ts` lie in the half-open window that starts at `from`. */
  function InWindow(ts: seq<int>, from: int, window: int): nat {
    CountIn(ts, from, from + window)
  }

  lemma {:induction false} EmptyWindow(ts: seq<int>, from: int, window: int)
    requires window <= 0
    ensures InWindow(ts, from, window) == 0
  {
    if ts != [] {
      EmptyWindow(ts[..|ts| - 1], from, window);
    }
  }

  function AtLeastZero(limit: int): nat {
    if limit < 0 then 0 else limit
  }

  ghost predicate InBound(events: seq<Event>, key: string, limit: int, window: int, from: int) {
    InWindow(Admissions(events, key), from, window) <= AtLeastZero(limit)
  }

  /** If every admission saw fewer than `limit` young predecessors, no window holds more than `limit`. */
  lemma AdmissionKeepsBound(history: seq<int>, at: int, limit: int, window: int, from: int)
    requires InWindow(history, from, window) <= AtLeastZero(limit)
    requires |Younger(history, at, window)| < limit
    ensures InWindow(history + [at], from, window) <= AtLeastZero(limit)
  {
    CountAppend(history, at, from, from + window);
    if from <= at < from + window {
      CountWithinWindow(history, from, window, at);
    }
  }

  /**
  In every run, any half-open interval of one window's length holds at most `limit` admissions of a
  key, when the window is no longer than what the sweep keeps.
  */
  lemma {:induction false} WindowBound(events: seq<Event>, key: string, limit: int, window: int, from: int)
    requires Ordered(events) && UsedWith(events, key, limit, window) && window <= RETENTION
    ensures InBound(events, key, limit, window, from)
  {
    if events != [] {
      var n := |events| - 1;
      var before, e := events[..n], events[n];
      WindowBound(before, key, limit, window, from);
      if e.Check? && e.key == key && Admitted(events, n) {
        DecisionIsExact(events, n, limit, window);
        AdmissionKeepsBound(Admissions(before, key), e.at, limit, window, from);
      }
    }
  }

  // ---------------------------------------------------------------- windows longer than the sweep keeps

  ghost predicate NeverExceeds(key: string, limit: int, window: int) {
    forall events, from :: Ordered(events) && UsedWith(events, key, limit, window) ==>
      InBound(events, key, limit, window, from)
  }

  /** `n` checks of one key, all at time zero. */
  function Burst(key: string, limit: int, window: int, n: nat): seq<Event> {
    if n == 0 then [] else Burst(key, limit, window, n - 1) + [Check(key, limit, window, 0)]
  }

  function Zeros(n: nat): seq<int> {
    if n == 0 then [] else Zeros(n - 1) + [0]
  }

  lemma {:induction false} ZerosCount(n: nat, now: int, window: int, from: int, to: int)
    ensures |Zeros(n)| == n
    ensures now < window ==> Younger(Zeros(n), now, window) == Zeros(n)
    ensures now >= window ==> Younger(Zeros(n), now, window) == []
    ensures from <= 0 < to ==> CountIn(Zeros(n), from, to) == n
  {
    if n > 0 {
      ZerosCount(n - 1, now, window, from, to);
      YoungerAppend(Zeros(n - 1), 0, now, window);
      CountAppend(Zeros(n - 1), 0, from, to);
    }
  }

  lemma {:induction false} BurstIsAdmitted(key: string, limit: int, window: int, n: nat)
    requires 0 < window && n <= limit
    ensures Stamps(Run(Burst(key, limit, window, n)), key) == Zeros(n)
    ensures Admissions(Burst(key, limit, window, n), key) == Zeros(n)
  {
    if n > 0 {
      BurstIsAdmitted(key, limit, window, n - 1);
      ZerosCount(n - 1, 0, window, 0, 1);
      RunAppend(Burst(key, limit, window, n - 1), Check(key, limit, window, 0), key);
    }
  }

  lemma {:induction false} BurstShape(key: string, limit: int, window: int, n: nat)
    ensures |Burst(key, limit, window, n)| == n
    ensures forall i :: 0 <= i < n ==> Burst(key, limit, window, n)[i] == Check(key, limit, window, 0)
  {
    if n > 0 {
      BurstShape(key, limit, window, n - 1);
    }
  }

  /** A full burst, a sweep two minutes later, and one more request at that time. */
  function BurstSweepCheck(key: string, limit: nat, window: int): seq<Event> {
    Burst(key, limit, window, limit) + [Sweep(RETENTION)] + [Check(key, limit, window, RETENTION)]
  }

  lemma BurstSweepCheckShape(key: string, limit: nat, window: int)
    ensures var events := BurstSweepCheck(key, limit, window);
            Ordered(events) && UsedWith(events, key, limit, window)
  {
    BurstShape(key, limit, window, limit);
  }

  /** With a longer window, the sweep forgets the burst and one request too many gets through. */
  lemma LongWindowExceeds(key: string, limit: nat, window: int)
    requires 1 <= limit && RETENTION < window
    ensures InWindow(Admissions(BurstSweepCheck(key, limit, window), key), 0, window) == limit + 1
  {
    var burst := Burst(key, limit, window, limit);
    BurstIsAdmitted(key, limit, window, limit);
    ZerosCount(limit, RETENTION, RETENTION, 0, window);
    RunAppend(burst, Sweep(RETENTION), key);
    var swept := burst + [Sweep(RETENTION)];
    assert Stamps(Run(swept), key) == [];
    RunAppend(swept, Check(key, limit, window, RETENTION), key);
    CountAppend(Zeros(limit), RETENTION, 0, window);
  }

  /** The bound holds in every run exactly when the window is at most two minutes. */
  lemma BoundHoldsIffWindowRetained(key: string, limit: int, window: int)
    requires 1 <= limit
    ensures NeverExceeds(key, limit, window) <==> window <= 120_000_000_000
  {
    if window <= RETENTION {
      forall events, from | Ordered(events) && UsedWith(events, key, limit, window)
        ensures InBound(events, key, limit, window, from)
      {
        WindowBound(events, key, limit, window, from);
      }
    } else {
      BurstSweepCheckShape(key, limit, window);
      LongWindowExceeds(key, limit, window);
      assert !InBound(BurstSweepCheck(key, limit, window), key, limit, window, 0);
    }
  }

  // ---------------------------------------------------------------- closed form

  ghost predicate Sorted(ts: seq<int>) {
    forall i, j :: 0 <= i < j < |ts| ==> ts[i] <= ts[j]
  }

  /** On a sorted history, counting the young is looking at one element: the `limit`-th from the end. */
  lemma {:induction false} YoungCountByIndex(ts: seq<int>, now: int, window: int, limit: nat)
    requires Sorted(ts) && 1 <= limit
    ensures |Younger(ts, now, window)| < limit <==> |ts| < limit || now - ts[|ts| - limit] >= window
  {
    if ts != [] {
      var n := |ts| - 1;
      var init := ts[..n];
      if now - ts[n] >= window {
        NoneYoung(ts, now, window);
      } else if limit > 1 {
        YoungCountByIndex(init, now, window, limit - 1);
      }
    }
  }

  lemma {:induction false} NoneYoung(ts: seq<int>, now: int, window: int)
    requires Sorted(ts) && ts != [] && now - ts[|ts| - 1] >= window
    ensures Younger(ts, now, window) == []
  {
    if |ts| > 1 {
      NoneYoung(ts[..|ts| - 1], now, window);
    }
  }

  lemma {:induction false} AdmissionsSorted(events: seq<Event>, key: string, upTo: int)
    requires Ordered(events) && (events != [] ==> events[|events| - 1].at <= upTo)
    ensures Sorted(Admissions(events, key))
    ensures forall i :: 0 <= i < |Admissions(events, key)| ==> Admissions(events, key)[i] <= upTo
  {
    if events != [] {
      var n := |events| - 1;
      AdmissionsSorted(events[..n], key, events[n].at);
    }
  }

  /**
  Closed form of the decision: a request is admitted if and only if its key has fewer than `limit`
  admissions so far, or the `limit`-th most recent of them is already a full window old.
  */
  lemma DecisionByIndex(events: seq<Event>, i: nat, limit: int, window: int)
    requires i < |events| && events[i].Check? && 1 <= events[i].limit
    requires Ordered(events) && UsedWith(events, events[i].key, limit, window) && window <= RETENTION
    ensures var past := Admissions(events[..i], events[i].key);
            Admitted(events, i) <==>
            |past| < events[i].limit || events[i].at - past[|past| - events[i].limit] >= window
  {
    var past, e := Admissions(events[..i], events[i].key), events[i];
    assert Admitted(events, i) <==> |Younger(past, e.at, window)| < e.limit by {
      DecisionIsExact(events, i, limit, window);
    }
    assert Sorted(past) by {
      AdmissionsSorted(events[..i], e.key, e.at);
    }
    YoungCountByIndex(past, e.at, window, e.limit);
  }
}
