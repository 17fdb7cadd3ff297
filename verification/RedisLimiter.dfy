/**
The distributed rate limiter on a Redis sorted set, and how it compares with the in-memory one.

A sorted set is a finite map from member to score. Every request adds its own time, whether it is
admitted or not; a check removes what has left the window, counts the rest, adds the request and
renews the key's expiry. One pipeline is one atomic step and scores are exact integers.
*/
module RedisLimiter {
  import opened Options
  import opened SlidingWindow

  datatype SortedSet = SortedSet(scores: map<int, int>, expiresAt: Option<int>)

  type Keyspace = map<string, SortedSet>

  predicate Exists(ks: Keyspace, key: string, now: int) {
    key in ks && (ks[key].expiresAt.Some? ==> now < ks[key].expiresAt.value)
  }

  /** The set stored under a key, as a command at `now` sees it: an expired key is gone. */
  function Live(ks: Keyspace, key: string, now: int): map<int, int> {
    if Exists(ks, key, now) then ks[key].scores else map[]
  }

  ghost predicate SameElsewhere(ks: Keyspace, ks': Keyspace, key: string) {
    forall k :: k != key ==> (k in ks <==> k in ks') && (k in ks ==> ks[k] == ks'[k])
  }

  /** Storing new members keeps the expiry of an existing key; an empty set is no key at all. */
  function Put(ks: Keyspace, key: string, scores: map<int, int>, now: int): (ks': Keyspace)
    ensures Live(ks', key, now) == scores
    ensures SameElsewhere(ks, ks', key)
  {
    if scores == map[] then ks - {key}
    else ks[key := SortedSet(scores, if Exists(ks, key, now) then ks[key].expiresAt else None)]
  }

  /** The members that survive ZREMRANGEBYSCORE key 0 max. */
  function Kept(scores: map<int, int>, max: int): map<int, int> {
    map m | m in scores && !(0 <= scores[m] <= max) :: scores[m]
  }

  predicate Allows(ks: Keyspace, key: string, limit: int, window: int, now: int) {
    |Kept(Live(ks, key, now), now - window)| < limit
  }

  function AfterAllow(ks: Keyspace, key: string, window: int, now: int): Keyspace {
    if window + MINUTE <= 0 then ks - {key}
    else ks[key := SortedSet(Kept(Live(ks, key, now), now - window)[now := now], Some(now + window + MINUTE))]
  }

  class Redis {
    var keyspace: Keyspace

    constructor ()
      ensures keyspace == map[]
    {
      keyspace := map[];
    }

    method ZRemRangeByScore(key: string, max: int, now: int)
      modifies this
      ensures Live(keyspace, key, now) == Kept(old(Live(keyspace, key, now)), max)
      ensures SameElsewhere(old(keyspace), keyspace, key)
    {
      keyspace := Put(keyspace, key, Kept(Live(keyspace, key, now), max), now);
    }

    method ZCard(key: string, now: int) returns (count: nat)
      ensures count == |Live(keyspace, key, now)|
    {
      count := |Live(keyspace, key, now)|;
    }

    method ZAdd(key: string, score: int, member: int, now: int)
      modifies this
      ensures Live(keyspace, key, now) == old(Live(keyspace, key, now))[member := score]
      ensures SameElsewhere(old(keyspace), keyspace, key)
    {
      keyspace := Put(keyspace, key, Live(keyspace, key, now)[member := score], now);
    }

    method Expire(key: string, ttl: int, now: int)
      modifies this
      ensures !old(Exists(keyspace, key, now)) || ttl <= 0 ==> !Exists(keyspace, key, now)
      ensures old(Exists(keyspace, key, now)) && ttl > 0 ==>
        key in keyspace && keyspace[key] == SortedSet(old(Live(keyspace, key, now)), Some(now + ttl))
      ensures ttl <= 0 ==> key !in keyspace
      ensures SameElsewhere(old(keyspace), keyspace, key)
    {
      if ttl <= 0 {
        keyspace := keyspace - {key};
      } else if Exists(keyspace, key, now) {
        keyspace := keyspace[key := SortedSet(keyspace[key].scores, Some(now + ttl))];
      }
    }

    /** The limiter's pipeline: trim, count, add, expire. */
    method Allow(key: string, limit: int, window: int, now: int) returns (allowed: bool)
      modifies this
      ensures allowed == Allows(old(keyspace), key, limit, window, now)
      ensures keyspace == AfterAllow(old(keyspace), key, window, now)
    {
      ghost var ks0 := keyspace;
      ghost var kept := Kept(Live(keyspace, key, now), now - window);
      ZRemRangeByScore(key, now - window, now);
      var count := ZCard(key, now);
      ghost var ks1 := keyspace;
      ZAdd(key, now, now, now);
      ghost var ks2 := keyspace;
      Expire(key, window + MINUTE, now);
      allowed := count < limit;
      PipelineEffect(ks0, ks1, ks2, keyspace, key, kept, window, now);
    }
  }

  lemma PipelineEffect(ks0: Keyspace, ks1: Keyspace, ks2: Keyspace, ks3: Keyspace, key: string,
                       kept: map<int, int>, window: int, now: int)
    requires SameElsewhere(ks0, ks1, key) && SameElsewhere(ks1, ks2, key) && SameElsewhere(ks2, ks3, key)
    requires Live(ks2, key, now) == kept[now := now]
    requires kept == Kept(Live(ks0, key, now), now - window)
    requires window + MINUTE <= 0 ==> key !in ks3
    requires Exists(ks2, key, now) && window + MINUTE > 0 ==>
               key in ks3 && ks3[key] == SortedSet(Live(ks2, key, now), Some(now + (window + MINUTE)))
    ensures ks3 == AfterAllow(ks0, key, window, now)
  {
    assert now in Live(ks2, key, now);
    var after := if window + MINUTE <= 0 then ks0 - {key}
                 else ks0[key := SortedSet(kept[now := now], Some(now + window + MINUTE))];
    assert SameElsewhere(ks0, ks3, key);
    assert SameElsewhere(ks0, after, key);
    assert ks3 == after;
  }

  /** A key is there until a minute after its last request has left the window, and then gone. */
  lemma ExpiryAfterAllow(ks: Keyspace, key: string, window: int, at: int, now: int)
    requires at <= now
    ensures var ks' := AfterAllow(ks, key, window, at);
            Live(ks', key, now) != map[] <==> now < at + window + 60_000_000_000
  {
    var ks' := AfterAllow(ks, key, window, at);
    assert key in ks' ==> at in ks'[key].scores;
  }

  // ---------------------------------------------------------------- runs

  /** Sweeps belong to the in-memory store only; here they do nothing. */
  function RedisRun(events: seq<Event>): Keyspace {
    if events == [] then map[]
    else
      var ks, e := RedisRun(events[..|events| - 1]), events[|events| - 1];
      if e.Check? then AfterAllow(ks, e.key, e.window, e.at) else ks
  }

  predicate RedisAdmitted(events: seq<Event>, i: nat)
    requires i < |events|
  {
    var e := events[i];
    e.Check? && Allows(RedisRun(events[..i]), e.key, e.limit, e.window, e.at)
  }

  /** The times of all requests for a key, admitted or not. */
  function Requests(events: seq<Event>, key: string): seq<int> {
    if events == [] then []
    else
      var earlier, e := Requests(events[..|events| - 1], key), events[|events| - 1];
      if IsRequest(e, key) then earlier + [e.at] else earlier
  }

  function RedisAdmissions(events: seq<Event>, key: string): seq<int> {
    if events == [] then []
    else
      var n := |events| - 1;
      var earlier, e := RedisAdmissions(events[..n], key), events[n];
      if IsRequest(e, key) && Allows(RedisRun(events[..n]), key, e.limit, e.window, e.at)
      then earlier + [e.at] else earlier
  }

  predicate IsRequest(e: Event, key: string) {
    e.Check? && e.key == key
  }

  /** Times count from the Unix epoch, and scores are removed from zero on. */
  ghost predicate SinceEpoch(events: seq<Event>) {
    forall i :: 0 <= i < |events| ==> 0 <= events[i].at
  }

  /** A run of either limiter in which the key always has one window and no limit above `limit`. */
  ghost predicate Regular(events: seq<Event>, key: string, limit: int, window: int) {
    Ordered(events) && SinceEpoch(events) && UsedWith(events, key, limit, window)
  }

  /** Requests of one key never share a nanosecond. */
  ghost predicate Distinct(events: seq<Event>, key: string) {
    forall i, j :: 0 <= i < j < |events| && IsRequest(events[i], key) && IsRequest(events[j], key) ==>
      events[i].at < events[j].at
  }

  function Young(ts: seq<int>, now: int, window: int): set<int> {
    set t | t in ts && now - t < window
  }

  /** What the key's set keeps, now and at any later time, is every request still in the window. */
  ghost predicate KeepsAll(ks: Keyspace, key: string, requests: seq<int>, window: int, since: int) {
    forall now :: since <= now ==>
      Kept(Live(ks, key, now), now - window).Keys == Young(requests, now, window)
  }

  /** Members are scored by themselves, and none is later than `upTo`. */
  ghost predicate SelfScored(ks: Keyspace, key: string, upTo: int) {
    key in ks ==> forall m :: m in ks[key].scores ==> ks[key].scores[m] == m <= upTo
  }

  lemma AllowKeepsAll(ks: Keyspace, key: string, requests: seq<int>, window: int, since: int, at: int)
    requires KeepsAll(ks, key, requests, window, since) && SelfScored(ks, key, since)
    requires since <= at && 0 <= at
    requires forall t :: t in requests ==> 0 <= t <= at
    ensures KeepsAll(AfterAllow(ks, key, window, at), key, requests + [at], window, at)
    ensures SelfScored(AfterAllow(ks, key, window, at), key, at)
  {
    assert Kept(Live(ks, key, at), at - window).Keys == Young(requests, at, window);
  }

  /** In every run the key holds exactly the requests still in the window; its expiry never matters. */
  lemma {:induction false} RunKeepsAll(events: seq<Event>, key: string, limit: int, window: int, since: int)
    requires Regular(events, key, limit, window)
    requires events != [] ==> since == events[|events| - 1].at
    ensures KeepsAll(RedisRun(events), key, Requests(events, key), window, since)
    ensures SelfScored(RedisRun(events), key, since)
    ensures forall t :: t in Requests(events, key) ==> 0 <= t <= since
  {
    if events != [] {
      var n := |events| - 1;
      var before, e := events[..n], events[n];
      var earlier := if n == 0 then e.at else before[n - 1].at;
      RunKeepsAll(before, key, limit, window, earlier);
      if IsRequest(e, key) {
        AllowKeepsAll(RedisRun(before), key, Requests(before, key), window, earlier, e.at);
      } else if e.Check? {
        var ks, ks' := RedisRun(before), RedisRun(events);
        assert key in ks <==> key in ks';
        assert key in ks ==> ks[key] == ks'[key];
      }
    }
  }

  // ---------------------------------------------------------------- decisions

  /** The times with repetitions dropped: requests in the same nanosecond are one member of the set. */
  function Instants(ts: seq<int>): seq<int> {
    if ts == [] then []
    else
      var earlier, last := Instants(ts[..|ts| - 1]), ts[|ts| - 1];
      if last in earlier then earlier else earlier + [last]
  }

  lemma {:induction false} InstantsAreTimes(ts: seq<int>, x: int)
    ensures x in Instants(ts) <==> x in ts
  {
    if ts != [] {
      InstantsAreTimes(ts[..|ts| - 1], x);
      assert x in ts <==> x in ts[..|ts| - 1] || x == ts[|ts| - 1];
    }
  }

  lemma InstantsAppend(ts: seq<int>, x: int)
    ensures Instants(ts + [x]) == if x in Instants(ts) then Instants(ts) else Instants(ts) + [x]
  {
    assert (ts + [x])[..|ts|] == ts;
  }

  /** Counting the young members of the set is counting the young instants. */
  lemma {:induction false} YoungCount(ts: seq<int>, now: int, window: int)
    ensures |Young(ts, now, window)| == |Younger(Instants(ts), now, window)|
  {
    if ts != [] {
      var init, last := ts[..|ts| - 1], ts[|ts| - 1];
      YoungCount(init, now, window);
      InstantsAreTimes(init, last);
      YoungerAppend(Instants(init), last, now, window);
      assert Young(ts, now, window) == Young(init, now, window) + (if now - last < window then {last} else {});
    }
  }

  /**
  The Redis limiter is exact about requests: it admits if and only if, of all earlier requests for the
  key, admitted or denied, fewer than `limit` instants are younger than the window.
  */
  lemma RedisIsExact(events: seq<Event>, i: nat, limit: int, window: int)
    requires i < |events| && events[i].Check?
    requires Regular(events, events[i].key, limit, window)
    ensures RedisAdmitted(events, i) <==>
            |Younger(Instants(Requests(events[..i], events[i].key)), events[i].at, window)| < events[i].limit
  {
    var e, before := events[i], events[..i];
    var since := if i == 0 then e.at else before[i - 1].at;
    RunKeepsAll(before, e.key, limit, window, since);
    YoungCount(Requests(before, e.key), e.at, window);
    var kept := Kept(Live(RedisRun(before), e.key, e.at), e.at - window);
    assert kept.Keys == Young(Requests(before, e.key), e.at, window);
    assert |kept| == |kept.Keys|;
  }

  lemma {:induction false} RequestsSorted(events: seq<Event>, key: string, upTo: int)
    requires Ordered(events) && (events != [] ==> events[|events| - 1].at <= upTo)
    ensures Sorted(Requests(events, key))
    ensures forall i :: 0 <= i < |Requests(events, key)| ==> Requests(events, key)[i] <= upTo
  {
    if events != [] {
      var n := |events| - 1;
      RequestsSorted(events[..n], key, events[n].at);
    }
  }

  lemma {:induction false} InstantsSorted(ts: seq<int>)
    requires Sorted(ts)
    ensures Sorted(Instants(ts))
  {
    if ts != [] {
      var init, last := ts[..|ts| - 1], ts[|ts| - 1];
      InstantsSorted(init);
      var earlier := Instants(init);
      forall i | 0 <= i < |earlier| ensures earlier[i] <= last {
        InstantsAreTimes(init, earlier[i]);
        var k :| 0 <= k < |init| && init[k] == earlier[i];
        assert ts[k] <= ts[|ts| - 1];
      }
    }
  }

  /** Closed form: the instant `limit` places back, if there is one, must be a full window old. */
  lemma RedisByIndex(events: seq<Event>, i: nat, limit: int, window: int)
    requires i < |events| && events[i].Check? && 1 <= events[i].limit
    requires Regular(events, events[i].key, limit, window)
    ensures var past := Instants(Requests(events[..i], events[i].key));
            RedisAdmitted(events, i) <==>
            |past| < events[i].limit || events[i].at - past[|past| - events[i].limit] >= window
  {
    var past := Requests(events[..i], events[i].key);
    RedisIsExact(events, i, limit, window);
    RequestsSorted(events[..i], events[i].key, events[i].at);
    InstantsSorted(past);
    YoungCountByIndex(Instants(past), events[i].at, window, events[i].limit);
  }

  // ---------------------------------------------------------------- the bound

  lemma {:induction false} AdmittedWereRequested(events: seq<Event>, key: string, x: int)
    requires x in RedisAdmissions(events, key)
    ensures x in Requests(events, key)
  {
    var n := |events| - 1;
    if x in RedisAdmissions(events[..n], key) {
      AdmittedWereRequested(events[..n], key, x);
    }
  }

  lemma {:induction false} SubsetCount<T>(a: set<T>, b: set<T>)
    requires a <= b
    ensures |a| <= |b|
  {
    if a != {} {
      var x :| x in a;
      SubsetCount(a - {x}, b - {x});
    }
  }

  /** The young instants of the admissions are among those of the requests. */
  lemma AdmittedInstants(events: seq<Event>, key: string, now: int, window: int)
    ensures |Younger(Instants(RedisAdmissions(events, key)), now, window)|
         <= |Younger(Instants(Requests(events, key)), now, window)|
  {
    var admitted, requested := RedisAdmissions(events, key), Requests(events, key);
    forall x | x in Young(admitted, now, window) ensures x in Young(requested, now, window) {
      AdmittedWereRequested(events, key, x);
    }
    SubsetCount(Young(admitted, now, window), Young(requested, now, window));
    YoungCount(admitted, now, window);
    YoungCount(requested, now, window);
  }

  /** In every run no window, of any length, holds more than `limit` instants at which a request was admitted. */
  lemma {:induction false} RedisBound(events: seq<Event>, key: string, limit: int, window: int, from: int)
    requires Regular(events, key, limit, window)
    ensures InWindow(Instants(RedisAdmissions(events, key)), from, window) <= AtLeastZero(limit)
  {
    if events != [] {
      var n := |events| - 1;
      var before, e := events[..n], events[n];
      RedisBound(before, key, limit, window, from);
      if IsRequest(e, key) && RedisAdmitted(events, n) {
        var earlier := RedisAdmissions(before, key);
        RedisIsExact(events, n, limit, window);
        AdmittedInstants(before, key, e.at, window);
        InstantsAppend(earlier, e.at);
        AdmissionKeepsBound(Instants(earlier), e.at, limit, window, from);
      }
    }
  }

  lemma {:induction false} InstantsOfIncreasing(ts: seq<int>, upTo: int)
    requires Increasing(ts, upTo)
    ensures Instants(ts) == ts
  {
    if ts != [] {
      var init, last := ts[..|ts| - 1], ts[|ts| - 1];
      InstantsOfIncreasing(init, last);
      assert last !in init;
      assert init + [last] == ts;
    }
  }

  ghost predicate Increasing(ts: seq<int>, upTo: int) {
    && (forall i, j :: 0 <= i < j < |ts| ==> ts[i] < ts[j])
    && (forall i :: 0 <= i < |ts| ==> ts[i] < upTo)
  }

  lemma {:induction false} TimesIncrease(events: seq<Event>, key: string, upTo: int)
    requires Distinct(events, key)
    requires forall i :: 0 <= i < |events| && IsRequest(events[i], key) ==> events[i].at < upTo
    ensures Increasing(Requests(events, key), upTo) && Increasing(RedisAdmissions(events, key), upTo)
  {
    if events != [] {
      var n := |events| - 1;
      var next := if IsRequest(events[n], key) then events[n].at else upTo;
      TimesIncrease(events[..n], key, next);
      OneMoreIncreases(Requests(events[..n], key), next, upTo);
      OneMoreIncreases(RedisAdmissions(events[..n], key), next, upTo);
    }
  }

  lemma OneMoreIncreases(ts: seq<int>, next: int, upTo: int)
    requires Increasing(ts, next) && next <= upTo
    ensures Increasing(ts, upTo) && (next < upTo ==> Increasing(ts + [next], upTo))
  {}

  /** Requests at distinct times: at most `limit` admissions in any window of any length. */
  lemma RedisBoundForDistinct(events: seq<Event>, key: string, limit: int, window: int, from: int, upTo: int)
    requires Regular(events, key, limit, window) && Distinct(events, key)
    requires forall i :: 0 <= i < |events| ==> events[i].at < upTo
    ensures InWindow(RedisAdmissions(events, key), from, window) <= AtLeastZero(limit)
  {
    RedisBound(events, key, limit, window, from);
    TimesIncrease(events, key, upTo);
    InstantsOfIncreasing(RedisAdmissions(events, key), upTo);
  }

  // ---------------------------------------------------------------- comparison

  lemma {:induction false} PruningShrinks(ts: seq<int>, early: int, wide: int, now: int, window: int)
    ensures |Younger(Younger(ts, early, wide), now, window)| <= |Younger(ts, now, window)|
  {
    if ts != [] {
      var init, last := ts[..|ts| - 1], ts[|ts| - 1];
      PruningShrinks(init, early, wide, now, window);
      YoungerAppend(Younger(init, early, wide), last, now, window);
    }
  }

  /** What the in-memory store remembers in the window is at most what was requested, however much is swept. */
  lemma {:induction false} StampsAmongRequests(events: seq<Event>, key: string, now: int, window: int)
    ensures |Younger(Stamps(Run(events), key), now, window)| <= |Younger(Requests(events, key), now, window)|
  {
    if events != [] {
      var n := |events| - 1;
      var before, e := events[..n], events[n];
      StampsAmongRequests(before, key, now, window);
      var stamps := Stamps(Run(before), key);
      match e {
        case Check(k, lim, w, at) =>
          if k == key {
            PruningShrinks(stamps, at, w, now, window);
            YoungerAppend(Younger(stamps, at, w), at, now, window);
            YoungerAppend(Requests(before, key), at, now, window);
          } else {
            assert Stamps(Run(events), key) == stamps;
          }
        case Sweep(at) => PruningShrinks(stamps, at, RETENTION, now, window);
      }
    }
  }

  /** On the same run, whatever the window, every request the Redis limiter admits the in-memory limiter admits. */
  lemma RedisIsStricter(events: seq<Event>, i: nat, limit: int, window: int)
    requires i < |events| && events[i].Check?
    requires Regular(events, events[i].key, limit, window)
    requires Distinct(events, events[i].key)
    ensures RedisAdmitted(events, i) ==> Admitted(events, i)
  {
    var e, before := events[i], events[..i];
    RedisIsExact(events, i, limit, window);
    TimesIncrease(before, e.key, e.at);
    InstantsOfIncreasing(Requests(before, e.key), e.at);
    StampsAmongRequests(before, e.key, e.at, window);
  }

  // ---------------------------------------------------------------- requests that share a nanosecond

  lemma {:induction false} NoYoungInstants(ts: seq<int>, now: int, window: int)
    requires Younger(Instants(ts), now, window) == []
    ensures Younger(ts, now, window) == []
  {
    if ts != [] {
      var init, last := ts[..|ts| - 1], ts[|ts| - 1];
      if last in Instants(init) {
        OldMember(Instants(init), last, now, window);
      } else {
        YoungerAppend(Instants(init), last, now, window);
      }
      NoYoungInstants(init, now, window);
    }
  }

  lemma {:induction false} OldMember(ts: seq<int>, x: int, now: int, window: int)
    requires x in ts && Younger(ts, now, window) == []
    ensures now - x >= window
  {
    if x != ts[|ts| - 1] {
      OldMember(ts[..|ts| - 1], x, now, window);
    }
  }

  /** The bound on admissions, in all runs, requests in the same nanosecond included. */
  ghost predicate RedisNeverExceeds(key: string, limit: int, window: int) {
    forall events, from :: Regular(events, key, limit, window) ==>
      InWindow(RedisAdmissions(events, key), from, window) <= AtLeastZero(limit)
  }

  /** Under a limit of one, an admission leaves no request in the window before it. */
  lemma {:induction false} OneAtATime(events: seq<Event>, key: string, limit: int, window: int, from: int)
    requires Regular(events, key, limit, window) && limit <= 1
    ensures InWindow(RedisAdmissions(events, key), from, window) <= AtLeastZero(limit)
  {
    if events != [] {
      var n := |events| - 1;
      var before, e := events[..n], events[n];
      OneAtATime(before, key, limit, window, from);
      if IsRequest(e, key) && RedisAdmitted(events, n) {
        RedisIsExact(events, n, limit, window);
        AdmittedInstants(before, key, e.at, window);
        NoYoungInstants(RedisAdmissions(before, key), e.at, window);
        AdmissionKeepsBound(RedisAdmissions(before, key), e.at, limit, window, from);
      }
    }
  }

  lemma {:induction false} BurstRequests(key: string, limit: int, window: int, n: nat)
    ensures Requests(Burst(key, limit, window, n), key) == Zeros(n)
  {
    if n > 0 {
      BurstRequests(key, limit, window, n - 1);
      RequestsAppend(Burst(key, limit, window, n - 1), Check(key, limit, window, 0), key);
    }
  }

  lemma RequestsAppend(before: seq<Event>, e: Event, key: string)
    ensures Requests(before + [e], key) == Requests(before, key) + (if IsRequest(e, key) then [e.at] else [])
  {
    assert (before + [e])[..|before|] == before;
  }

  lemma {:induction false} InstantsOfOne(ts: seq<int>, x: int)
    requires ts != [] && forall i :: 0 <= i < |ts| ==> ts[i] == x
    ensures Instants(ts) == [x]
  {
    if |ts| > 1 {
      InstantsOfOne(ts[..|ts| - 1], x);
    }
  }

  lemma {:induction false} AllZero(n: nat)
    ensures |Zeros(n)| == n && forall i :: 0 <= i < n ==> Zeros(n)[i] == 0
  {
    if n > 0 {
      AllZero(n - 1);
    }
  }

  lemma OneInstant(n: nat)
    ensures |Instants(Zeros(n))| <= 1
  {
    AllZero(n);
    if n > 0 {
      InstantsOfOne(Zeros(n), 0);
    }
  }

  lemma BurstPrefix(key: string, limit: int, window: int, n: nat)
    ensures var burst := Burst(key, limit, window, n + 1);
            |burst| == n + 1 && burst[..n] == Burst(key, limit, window, n) && burst[n] == Check(key, limit, window, 0)
  {
    BurstShape(key, limit, window, n);
  }

  lemma BurstRegular(key: string, limit: int, window: int, n: nat)
    ensures Regular(Burst(key, limit, window, n), key, limit, window)
  {
    BurstShape(key, limit, window, n);
  }

  lemma BurstAllowed(key: string, limit: int, window: int, n: nat)
    requires 2 <= limit
    ensures Allows(RedisRun(Burst(key, limit, window, n)), key, limit, window, 0)
  {
    BurstPrefix(key, limit, window, n);
    BurstRegular(key, limit, window, n + 1);
    RedisIsExact(Burst(key, limit, window, n + 1), n, limit, window);
    BurstRequests(key, limit, window, n);
    OneInstant(n);
    assert |Younger(Instants(Zeros(n)), 0, window)| <= 1;
  }

  lemma RedisCountLast(events: seq<Event>, n: nat, key: string, from: int, window: int)
    requires |events| == n + 1 && IsRequest(events[n], key) && from <= events[n].at < from + window
    requires Allows(RedisRun(events[..n]), key, events[n].limit, events[n].window, events[n].at)
    ensures InWindow(RedisAdmissions(events, key), from, window)
         == InWindow(RedisAdmissions(events[..n], key), from, window) + 1
  {
    CountAppend(RedisAdmissions(events[..n], key), events[n].at, from, from + window);
  }

  /** Under a limit of two or more, any number of requests in one nanosecond are all admitted. */
  lemma {:induction false} WholeBurstAdmitted(key: string, limit: int, window: int, n: nat)
    requires 2 <= limit && 0 < window
    ensures InWindow(RedisAdmissions(Burst(key, limit, window, n), key), 0, window) == n
  {
    if n > 0 {
      WholeBurstAdmitted(key, limit, window, n - 1);
      BurstAllowed(key, limit, window, n - 1);
      BurstPrefix(key, limit, window, n - 1);
      RedisCountLast(Burst(key, limit, window, n), n - 1, key, 0, window);
    }
  }

  /** Ties included, the bound holds in all runs exactly for limits of at most one, or when no time is in the window. */
  lemma RedisBoundIff(key: string, limit: int, window: int)
    ensures RedisNeverExceeds(key, limit, window) <==> limit <= 1 || window <= 0
  {
    if limit <= 1 || window <= 0 {
      forall events, from | Regular(events, key, limit, window)
        ensures InWindow(RedisAdmissions(events, key), from, window) <= AtLeastZero(limit)
      {
        if limit <= 1 {
          OneAtATime(events, key, limit, window, from);
        } else {
          EmptyWindow(RedisAdmissions(events, key), from, window);
        }
      }
    } else {
      BurstRegular(key, limit, window, limit + 1);
      WholeBurstAdmitted(key, limit, window, limit + 1);
    }
  }

  /** Redis admits the i-th request, which is one of the key, and the in-memory limiter denies it. */
  ghost predicate LooserAt(events: seq<Event>, i: int, key: string) {
    0 <= i < |events| && IsRequest(events[i], key) && RedisAdmitted(events, i) && !Admitted(events, i)
  }

  /** In all runs, ties included, Redis admits no request of the key that the in-memory limiter denies. */
  ghost predicate RedisNeverLooser(key: string, limit: int, window: int) {
    forall events, i :: Regular(events, key, limit, window) ==> !LooserAt(events, i, key)
  }

  lemma {:induction false} NothingYoung(ts: seq<int>, now: int, window: int)
    requires window <= 0 && forall i :: 0 <= i < |ts| ==> ts[i] <= now
    ensures Younger(ts, now, window) == []
  {
    if ts != [] {
      NothingYoung(ts[..|ts| - 1], now, window);
    }
  }

  lemma NotLooserAt(events: seq<Event>, i: nat, limit: int, window: int)
    requires i < |events| && events[i].Check? && (limit <= 1 || window <= 0)
    requires Regular(events, events[i].key, limit, window)
    requires RedisAdmitted(events, i)
    ensures Admitted(events, i)
  {
    var e, before := events[i], events[..i];
    var requests := Requests(before, e.key);
    RedisIsExact(events, i, limit, window);
    StampsAmongRequests(before, e.key, e.at, window);
    if window <= 0 {
      RequestsSorted(before, e.key, e.at);
      NothingYoung(requests, e.at, window);
    } else {
      NoYoungInstants(requests, e.at, window);
    }
  }

  /** Under a limit of two or more, the request after a full burst in one nanosecond gets through Redis only. */
  lemma BurstIsLooser(key: string, limit: int, window: int)
    requires 2 <= limit && 0 < window
    ensures var burst := Burst(key, limit, window, limit + 1);
            Regular(burst, key, limit, window) && LooserAt(burst, limit, key)
  {
    BurstPrefix(key, limit, window, limit);
    BurstRegular(key, limit, window, limit + 1);
    BurstAllowed(key, limit, window, limit);
    BurstIsAdmitted(key, limit, window, limit);
    ZerosCount(limit, 0, window, 0, 1);
  }

  /** Ties included, Redis is never looser exactly for limits of at most one, or when no time is in the window. */
  lemma RedisNeverLooserIff(key: string, limit: int, window: int)
    ensures RedisNeverLooser(key, limit, window) <==> limit <= 1 || window <= 0
  {
    if limit <= 1 || window <= 0 {
      forall events, i | Regular(events, key, limit, window) && LooserAt(events, i, key) ensures false {
        NotLooserAt(events, i, limit, window);
      }
    } else {
      BurstIsLooser(key, limit, window);
    }
  }
}
