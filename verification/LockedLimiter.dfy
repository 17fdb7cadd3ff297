/**
The in-memory limiter taken apart at its locks.

A limit check takes the store lock to find or create the key's entry, releases it, and only then
takes the entry's own lock to decide. The sweep holds the store lock throughout and takes each
entry's lock in turn. Threads interleave between these steps. A step that is not enabled (a lock is
taken, a thread is elsewhere) leaves the state alone, so every sequence of steps is a run.
*/
module LockedLimiter {
  import opened Options
  import opened SlidingWindow

  type Thread = nat

  datatype Call = Call(key: string, limit: int, window: int)

  /** Where a thread is: a limit check goes through the first four places, a sweep through the rest. */
  datatype Place =
    | Idle
    | WantsStore(call: Call)
    | InStore(call: Call)
    | WantsEntry(call: Call, entry: nat)
    | InEntry(call: Call, entry: nat)
    | SweepWaits
    | SweepLocked
    | Sweeping(now: int, todo: set<string>)
    | SweepWantsEntry(now: int, todo: set<string>, key: string, entry: nat)
    | SweepInEntry(now: int, todo: set<string>, key: string, entry: nat)

  /** One admission; `listed` tells whether the entry was still the one listed for its key. */
  datatype Admission = Admission(key: string, entry: nat, at: int, listed: bool)

  /** Entry objects are numbered as they are created; `owners` and `log` only record what happened. */
  datatype System = System(
    clock: int,
    storeMu: Option<Thread>,
    entryMu: map<nat, Thread>,
    items: map<string, nat>,
    stamps: seq<seq<int>>,
    owners: seq<string>,
    places: map<Thread, Place>,
    log: seq<Admission>)

  datatype Action =
    | Tick(elapsed: nat)
    | Begin(t: Thread, call: Call)
    | BeginSweep(t: Thread)
    | LockStore(t: Thread)
    | Lookup(t: Thread)
    | LockEntry(t: Thread)
    | Decide(t: Thread)
    | SweepScan(t: Thread)
    | SweepNext(t: Thread, key: string)
    | SweepPrune(t: Thread)
    | SweepDone(t: Thread)

  const INITIAL := System(0, None, map[], map[], [], [], map[], [])

  function At(s: System, t: Thread): Place {
    if t in s.places then s.places[t] else Idle
  }

  predicate Enabled(s: System, a: Action) {
    match a
    case Tick(_) => true
    case Begin(t, _) => At(s, t).Idle?
    case BeginSweep(t) => At(s, t).Idle?
    case LockStore(t) => (At(s, t).WantsStore? || At(s, t).SweepWaits?) && s.storeMu == None
    case Lookup(t) => At(s, t).InStore?
    case LockEntry(t) => (At(s, t).WantsEntry? || At(s, t).SweepWantsEntry?) && At(s, t).entry !in s.entryMu
    case Decide(t) => At(s, t).InEntry? && At(s, t).entry < |s.stamps|
    case SweepScan(t) => At(s, t).SweepLocked?
    case SweepNext(t, key) => At(s, t).Sweeping? && key in At(s, t).todo && key in s.items
    case SweepPrune(t) => At(s, t).SweepInEntry? && At(s, t).entry < |s.stamps|
    case SweepDone(t) => At(s, t).Sweeping? && At(s, t).todo == {}
  }

  function Move(s: System, t: Thread, p: Place): System {
    s.(places := s.places[t := p])
  }

  function Found(s: System, key: string): nat {
    if key in s.items then s.items[key] else |s.stamps|
  }

  function AfterLookup(s: System, t: Thread, call: Call): System {
    var s' := if call.key in s.items then s
              else s.(items := s.items[call.key := |s.stamps|],
                      stamps := s.stamps + [[]], owners := s.owners + [call.key]);
    Move(s', t, WantsEntry(call, Found(s, call.key))).(storeMu := None)
  }

  function AfterDecide(s: System, t: Thread, call: Call, e: nat): System
    requires e < |s.stamps|
  {
    var valid := Younger(s.stamps[e], s.clock, call.window);
    var admit := |valid| < call.limit;
    var listed := call.key in s.items && s.items[call.key] == e;
    Move(s, t, Idle).(
      stamps := s.stamps[e := valid + (if admit then [s.clock] else [])],
      log := s.log + (if admit then [Admission(call.key, e, s.clock, listed)] else []),
      entryMu := s.entryMu - {e})
  }

  function AfterPrune(s: System, t: Thread, p: Place): System
    requires p.SweepInEntry? && p.entry < |s.stamps|
  {
    var valid := Younger(s.stamps[p.entry], p.now, RETENTION);
    Move(s, t, Sweeping(p.now, p.todo)).(
      stamps := s.stamps[p.entry := valid],
      items := if valid == [] then s.items - {p.key} else s.items,
      entryMu := s.entryMu - {p.entry})
  }

  function Step(s: System, a: Action): System {
    if !Enabled(s, a) then s
    else match a
      case Tick(elapsed) => s.(clock := s.clock + elapsed)
      case Begin(t, call) => Move(s, t, WantsStore(call))
      case BeginSweep(t) => Move(s, t, SweepWaits)
      case LockStore(t) =>
        Move(s, t, if At(s, t).WantsStore? then InStore(At(s, t).call) else SweepLocked).(storeMu := Some(t))
      case Lookup(t) => AfterLookup(s, t, At(s, t).call)
      case LockEntry(t) =>
        var p := At(s, t);
        Move(s, t, if p.WantsEntry? then InEntry(p.call, p.entry) else SweepInEntry(p.now, p.todo, p.key, p.entry))
        .(entryMu := s.entryMu[p.entry := t])
      case Decide(t) => AfterDecide(s, t, At(s, t).call, At(s, t).entry)
      case SweepScan(t) => Move(s, t, Sweeping(s.clock, s.items.Keys))
      case SweepNext(t, key) =>
        Move(s, t, SweepWantsEntry(At(s, t).now, At(s, t).todo - {key}, key, s.items[key]))
      case SweepPrune(t) => AfterPrune(s, t, At(s, t))
      case SweepDone(t) => Move(s, t, Idle).(storeMu := None)
  }

  function Exec(actions: seq<Action>): System {
    if actions == [] then INITIAL
    else Step(Exec(actions[..|actions| - 1]), actions[|actions| - 1])
  }

  // ---------------------------------------------------------------- locking discipline

  predicate HoldsStore(p: Place) {
    p.InStore? || p.SweepLocked? || p.Sweeping? || p.SweepWantsEntry? || p.SweepInEntry?
  }

  predicate HoldsEntry(p: Place, e: nat) {
    (p.InEntry? || p.SweepInEntry?) && p.entry == e
  }

  /** What a place asserts about the store while a thread is there. */
  ghost predicate Sound(s: System, p: Place) {
    match p
    case WantsEntry(call, e) => e < |s.owners| && s.owners[e] == call.key
    case InEntry(call, e) => e < |s.owners| && s.owners[e] == call.key
    case Sweeping(now, todo) => now <= s.clock && todo <= s.items.Keys
    case SweepWantsEntry(now, todo, key, e) =>
      now <= s.clock && todo <= s.items.Keys - {key} && key in s.items && s.items[key] == e
    case SweepInEntry(now, todo, key, e) =>
      now <= s.clock && todo <= s.items.Keys - {key} && key in s.items && s.items[key] == e
    case _ => true
  }

  ghost predicate StoreExclusive(s: System) {
    forall t: Thread :: HoldsStore(At(s, t)) <==> s.storeMu == Some(t)
  }

  ghost predicate EntriesExclusive(s: System) {
    forall t: Thread, e: nat :: HoldsEntry(At(s, t), e) <==> e in s.entryMu && s.entryMu[e] == t
  }

  ghost predicate WellListed(s: System) {
    && |s.owners| == |s.stamps|
    && (forall key :: key in s.items ==> s.items[key] < |s.owners| && s.owners[s.items[key]] == key)
  }

  ghost predicate AllSound(s: System) {
    forall t: Thread :: Sound(s, At(s, t))
  }

  ghost predicate Disciplined(s: System) {
    StoreExclusive(s) && EntriesExclusive(s) && WellListed(s) && AllSound(s)
  }

  /** A step moves no thread but the one that takes it. */
  lemma OthersStay(s: System, a: Action)
    ensures forall u: Thread :: a.Tick? || u != a.t ==> At(Step(s, a), u) == At(s, u)
  {}

  lemma StoreStaysExclusive(s: System, a: Action)
    requires StoreExclusive(s)
    ensures StoreExclusive(Step(s, a))
  {
    OthersStay(s, a);
  }

  predicate Acquires(s: System, a: Action) {
    a.LockEntry? && Enabled(s, a)
  }

  predicate Releases(s: System, a: Action) {
    (a.Decide? || a.SweepPrune?) && Enabled(s, a)
  }

  /** The entry locks and their holder change together. */
  lemma EntryLocksAfter(s: System, a: Action, e: nat)
    ensures Acquires(s, a) ==> Step(s, a).entryMu == s.entryMu[At(s, a.t).entry := a.t]
    ensures Acquires(s, a) ==> (HoldsEntry(At(Step(s, a), a.t), e) <==> e == At(s, a.t).entry)
    ensures Releases(s, a) ==> Step(s, a).entryMu == s.entryMu - {At(s, a.t).entry}
    ensures Releases(s, a) ==> !HoldsEntry(At(Step(s, a), a.t), e)
    ensures !Acquires(s, a) && !Releases(s, a) ==> Step(s, a).entryMu == s.entryMu
    ensures !Acquires(s, a) && !Releases(s, a) && !a.Tick? ==>
      (HoldsEntry(At(Step(s, a), a.t), e) <==> HoldsEntry(At(s, a.t), e))
  {}

  lemma EntryStaysExclusive(s: System, a: Action, t: Thread, e: nat)
    requires EntriesExclusive(s)
    ensures var s' := Step(s, a);
            HoldsEntry(At(s', t), e) <==> e in s'.entryMu && s'.entryMu[e] == t
  {
    OthersStay(s, a);
    EntryLocksAfter(s, a, e);
    assert HoldsEntry(At(s, t), e) <==> e in s.entryMu && s.entryMu[e] == t;
    if !a.Tick? {
      assert HoldsEntry(At(s, a.t), e) <==> e in s.entryMu && s.entryMu[e] == a.t;
    }
  }

  lemma EntriesStayExclusive(s: System, a: Action)
    requires EntriesExclusive(s)
    ensures EntriesExclusive(Step(s, a))
  {
    var s' := Step(s, a);
    forall t: Thread, e: nat ensures HoldsEntry(At(s', t), e) <==> e in s'.entryMu && s'.entryMu[e] == t {
      EntryStaysExclusive(s, a, t, e);
    }
  }

  lemma StaysWellListed(s: System, a: Action)
    requires WellListed(s)
    ensures WellListed(Step(s, a))
  {}

  lemma StaysSound(s: System, a: Action)
    requires Disciplined(s)
    ensures AllSound(Step(s, a))
  {
    OthersStay(s, a);
    var s' := Step(s, a);
    forall t: Thread ensures Sound(s', At(s', t)) {
      assert Sound(s, At(s, t));
      assert !a.Tick? ==> Sound(s, At(s, a.t));
    }
  }

  lemma StaysDisciplined(s: System, a: Action)
    requires Disciplined(s)
    ensures Disciplined(Step(s, a))
  {
    StoreStaysExclusive(s, a);
    EntriesStayExclusive(s, a);
    StaysWellListed(s, a);
    StaysSound(s, a);
  }

  /** In every interleaving the locks exclude each other and every thread's view of the store is right. */
  lemma {:induction false} RunDisciplined(actions: seq<Action>)
    ensures Disciplined(Exec(actions))
  {
    if actions != [] {
      RunDisciplined(actions[..|actions| - 1]);
      StaysDisciplined(Exec(actions[..|actions| - 1]), actions[|actions| - 1]);
    }
  }

  // ---------------------------------------------------------------- an uninterrupted check is the atomic one

  /** What the store lists, as the atomic model of `SlidingWindow` sees it. */
  ghost function Contents(s: System): Store
    requires WellListed(s)
  {
    map key | key in s.items :: s.stamps[s.items[key]]
  }

  ghost function AfterEntering(s: System, t: Thread, call: Call): System {
    Step(Step(Step(s, Begin(t, call)), LockStore(t)), Lookup(t))
  }

  lemma EnteringFindsEntry(s: System, t: Thread, call: Call)
    requires Disciplined(s) && At(s, t).Idle? && s.storeMu == None && s.entryMu == map[]
    ensures var s' := AfterEntering(s, t, call);
            && WellListed(s') && s'.clock == s.clock && s'.entryMu == map[] && s'.log == s.log
            && call.key in s'.items && At(s', t) == WantsEntry(call, s'.items[call.key])
            && Contents(s') == Contents(s)[call.key := Stamps(Contents(s), call.key)]
  {
    StaysWellListed(s, Begin(t, call));
    StaysWellListed(Step(s, Begin(t, call)), LockStore(t));
    StaysWellListed(Step(Step(s, Begin(t, call)), LockStore(t)), Lookup(t));
  }

  /** Writing to the entry listed for a key changes the contents at that key only. */
  lemma RestampedContents(s: System, s': System, key: string, ts: seq<int>)
    requires WellListed(s) && WellListed(s') && key in s.items
    requires s'.items == s.items && s'.stamps == s.stamps[s.items[key] := ts]
    ensures Contents(s') == Contents(s)[key := ts]
  {
    forall k | k in s.items && k != key ensures s'.stamps[s.items[k]] == s.stamps[s.items[k]] {
      assert s.owners[s.items[k]] == k;
    }
  }

  lemma DecidingAsAtomic(s: System, t: Thread, call: Call)
    requires WellListed(s) && s.entryMu == map[] && call.key in s.items
    requires At(s, t) == WantsEntry(call, s.items[call.key])
    ensures var s' := Step(Step(s, LockEntry(t)), Decide(t));
            && WellListed(s') && At(s', t).Idle?
            && Contents(s') == AfterCheck(Contents(s), call.key, call.limit, call.window, s.clock)
            && (|s'.log| == |s.log| + 1 <==> Admits(Contents(s), call.key, call.limit, call.window, s.clock))
  {
    var mid := Step(s, LockEntry(t));
    StaysWellListed(s, LockEntry(t));
    StaysWellListed(mid, Decide(t));
    var s', e := Step(mid, Decide(t)), s.items[call.key];
    var valid := Younger(s.stamps[e], s.clock, call.window);
    RestampedContents(s, s', call.key, valid + (if |valid| < call.limit then [s.clock] else []));
    assert |valid| >= call.limit ==> valid + [] == valid;
  }

  /** Listing an empty entry first makes no difference to a check. */
  lemma CheckAfterListing(c: Store, key: string, limit: int, window: int, now: int)
    ensures var listed := c[key := Stamps(c, key)];
            && AfterCheck(listed, key, limit, window, now) == AfterCheck(c, key, limit, window, now)
            && Admits(listed, key, limit, window, now) == Admits(c, key, limit, window, now)
  {
    var x := Stamps(AfterCheck(c, key, limit, window, now), key);
    assert c[key := Stamps(c, key)][key := x] == c[key := x];
  }

  /** A check that no other thread interrupts does what the atomic check of `SlidingWindow` does. */
  lemma UninterruptedCheck(s: System, t: Thread, call: Call)
    requires Disciplined(s) && At(s, t).Idle? && s.storeMu == None && s.entryMu == map[]
    ensures var s' := Step(Step(AfterEntering(s, t, call), LockEntry(t)), Decide(t));
            && WellListed(s') && At(s', t).Idle?
            && Contents(s') == AfterCheck(Contents(s), call.key, call.limit, call.window, s.clock)
            && (|s'.log| == |s.log| + 1 <==> Admits(Contents(s), call.key, call.limit, call.window, s.clock))
  {
    EnteringFindsEntry(s, t, call);
    DecidingAsAtomic(AfterEntering(s, t, call), t, call);
    CheckAfterListing(Contents(s), call.key, call.limit, call.window, s.clock);
  }

  // ---------------------------------------------------------------- an uninterrupted sweep is the atomic one

  /** One key of a sweep: take its entry, lock it, prune it. */
  ghost function AfterKey(s: System, t: Thread, key: string): System {
    Step(Step(Step(s, SweepNext(t, key)), LockEntry(t)), SweepPrune(t))
  }

  /** The keys of a sweep, one after the other. */
  ghost function AfterKeys(s: System, t: Thread, keys: seq<string>): System {
    if keys == [] then s else AfterKey(AfterKeys(s, t, keys[..|keys| - 1]), t, keys[|keys| - 1])
  }

  ghost predicate MidSweep(s: System, t: Thread, now: int, todo: set<string>) {
    WellListed(s) && s.entryMu == map[] && At(s, t) == Sweeping(now, todo) && todo <= s.items.Keys
  }

  lemma KeyAsAtomic(s: System, t: Thread, now: int, todo: set<string>, key: string)
    requires MidSweep(s, t, now, todo) && key in todo
    ensures var s' := AfterKey(s, t, key);
            && WellListed(s') && s'.entryMu == map[] && At(s', t) == Sweeping(now, todo - {key})
            && Contents(s') == SweptAt(Contents(s), key, now)
  {
    var s1 := Step(s, SweepNext(t, key));
    StaysWellListed(s, SweepNext(t, key));
    var s2 := Step(s1, LockEntry(t));
    StaysWellListed(s1, LockEntry(t));
    StaysWellListed(s2, SweepPrune(t));
    PruneAsAtomic(s2, t, key);
  }

  lemma PruneAsAtomic(s: System, t: Thread, key: string)
    requires WellListed(s) && WellListed(Step(s, SweepPrune(t))) && key in s.items
    requires At(s, t).SweepInEntry? && At(s, t).key == key && At(s, t).entry == s.items[key]
    ensures Contents(Step(s, SweepPrune(t))) == SweptAt(Contents(s), key, At(s, t).now)
  {
    var s', e, now := Step(s, SweepPrune(t)), s.items[key], At(s, t).now;
    var valid := Younger(s.stamps[e], now, RETENTION);
    if valid == [] {
      var dropped := s.(items := s.items - {key});
      forall k | k in dropped.items ensures s'.stamps[s'.items[k]] == s.stamps[s.items[k]] {
        assert s.owners[s.items[k]] == k;
      }
      assert Contents(s') == Contents(s) - {key};
    } else {
      RestampedContents(s, s', key, valid);
    }
  }

  lemma {:induction false} KeysAsAtomic(s: System, t: Thread, now: int, todo: set<string>, keys: seq<string>)
    requires MidSweep(s, t, now, todo) && todo == s.items.Keys
    requires (forall i :: 0 <= i < |keys| ==> keys[i] in todo) && NoRepeats(keys)
    ensures var left := todo - (set key | key in keys);
            MidSweep(AfterKeys(s, t, keys), t, now, left)
            && Contents(AfterKeys(s, t, keys)) == PartlySwept(Contents(s), left, now)
  {
    if keys == [] {
      assert todo - (set key | key in keys) == todo;
      assert PartlySwept(Contents(s), todo, now) == Contents(s);
    } else {
      var n := |keys| - 1;
      var init, last := keys[..n], keys[n];
      var left := todo - (set key | key in init);
      assert keys == init + [last];
      assert last in left && left - {last} == todo - (set key | key in keys);
      KeysAsAtomic(s, t, now, todo, init);
      OneMoreKey(Contents(s), AfterKeys(s, t, init), t, now, left, last);
    }
  }

  lemma OneMoreKey(c: Store, s: System, t: Thread, now: int, left: set<string>, key: string)
    requires MidSweep(s, t, now, left) && key in left && left <= c.Keys && Contents(s) == PartlySwept(c, left, now)
    ensures MidSweep(AfterKey(s, t, key), t, now, left - {key})
    ensures Contents(AfterKey(s, t, key)) == PartlySwept(c, left - {key}, now)
  {
    KeyAsAtomic(s, t, now, left, key);
    SweepStep(c, left, key, now);
    assert AfterKey(s, t, key).items.Keys == Contents(AfterKey(s, t, key)).Keys;
  }

  ghost predicate NoRepeats(keys: seq<string>) {
    forall i, j :: 0 <= i < j < |keys| ==> keys[i] != keys[j]
  }

  ghost function AfterScan(s: System, t: Thread): System {
    Step(Step(Step(s, BeginSweep(t)), LockStore(t)), SweepScan(t))
  }

  lemma ScanIsQuiet(s: System, t: Thread)
    requires WellListed(s) && At(s, t).Idle? && s.storeMu == None && s.entryMu == map[]
    ensures MidSweep(AfterScan(s, t), t, s.clock, s.items.Keys) && AfterScan(s, t).items == s.items
    ensures Contents(AfterScan(s, t)) == Contents(s)
  {
    StaysWellListed(s, BeginSweep(t));
    StaysWellListed(Step(s, BeginSweep(t)), LockStore(t));
    StaysWellListed(Step(Step(s, BeginSweep(t)), LockStore(t)), SweepScan(t));
  }

  /** A sweep that no other thread interrupts, over the listed keys in any order, is the atomic sweep. */
  lemma UninterruptedSweep(s: System, t: Thread, keys: seq<string>)
    requires WellListed(s) && At(s, t).Idle? && s.storeMu == None && s.entryMu == map[]
    requires (set key | key in keys) == s.items.Keys && NoRepeats(keys)
    ensures var s' := Step(AfterKeys(AfterScan(s, t), t, keys), SweepDone(t));
            WellListed(s') && At(s', t).Idle? && s'.storeMu == None && Contents(s') == AfterSweep(Contents(s), s.clock)
  {
    var scanned := AfterScan(s, t);
    ScanIsQuiet(s, t);
    KeysAsAtomic(scanned, t, s.clock, s.items.Keys, keys);
    assert s.items.Keys - (set key | key in keys) == {};
    SweptAll(Contents(s), s.clock);
    DoneIsQuiet(AfterKeys(scanned, t, keys), t, s.clock);
  }

  lemma DoneIsQuiet(s: System, t: Thread, now: int)
    requires MidSweep(s, t, now, {})
    ensures var s' := Step(s, SweepDone(t));
            WellListed(s') && At(s', t).Idle? && s'.storeMu == None && Contents(s') == Contents(s)
  {
    StaysWellListed(s, SweepDone(t));
  }

  lemma SweptAll(c: Store, now: int)
    ensures PartlySwept(c, {}, now) == AfterSweep(c, now)
  {}

  // ---------------------------------------------------------------- a sweep is thorough and ends

  /** Every step of a sweep to its next key leaves it fewer keys to visit. */
  lemma SweepShrinks(s: System, t: Thread, key: string)
    requires Enabled(s, SweepNext(t, key))
    ensures At(Step(s, SweepNext(t, key)), t).SweepWantsEntry?
    ensures At(Step(s, SweepNext(t, key)), t).todo < At(s, t).todo
  {}

  ghost predicate AllYoung(ts: seq<int>, now: int) {
    forall i :: 0 <= i < |ts| ==> now - ts[i] < RETENTION
  }

  /** The keys a sweep is still to prune. */
  function Unpruned(p: Place): set<string> {
    match p
    case Sweeping(_, todo) => todo
    case SweepWantsEntry(_, todo, key, _) => todo + {key}
    case SweepInEntry(_, todo, key, _) => todo + {key}
    case _ => {}
  }

  predicate IsSweeping(p: Place) {
    p.Sweeping? || p.SweepWantsEntry? || p.SweepInEntry?
  }

  /** What the sweep has been at holds nothing that was two minutes old when it began. */
  ghost predicate Thorough(s: System, t: Thread)
    requires WellListed(s)
  {
    IsSweeping(At(s, t)) ==>
      forall key :: key in s.items && key !in Unpruned(At(s, t)) ==> AllYoung(s.stamps[s.items[key]], At(s, t).now)
  }

  lemma {:induction false} PruningIsYoung(ts: seq<int>, now: int)
    ensures AllYoung(Younger(ts, now, RETENTION), now)
  {
    if ts != [] {
      PruningIsYoung(ts[..|ts| - 1], now);
    }
  }

  lemma {:induction false} StaysYoung(ts: seq<int>, at: int, window: int, now: int)
    requires AllYoung(ts, now)
    ensures AllYoung(Younger(ts, at, window), now)
  {
    if ts != [] {
      StaysYoung(ts[..|ts| - 1], at, window, now);
    }
  }

  lemma DecideStaysYoung(s: System, u: Thread, e: nat, now: int)
    requires WellListed(s) && Enabled(s, Decide(u)) && e < |s.stamps| && now <= s.clock && AllYoung(s.stamps[e], now)
    ensures AllYoung(Step(s, Decide(u)).stamps[e], now)
  {
    if e == At(s, u).entry {
      StaysYoung(s.stamps[e], s.clock, At(s, u).call.window, now);
    }
  }

  lemma OwnPruneThorough(s: System, t: Thread)
    requires Disciplined(s) && Thorough(s, t) && Enabled(s, SweepPrune(t))
    ensures WellListed(Step(s, SweepPrune(t))) && Thorough(Step(s, SweepPrune(t)), t)
  {
    var p, s' := At(s, t), Step(s, SweepPrune(t));
    StaysWellListed(s, SweepPrune(t));
    assert Sound(s, p);
    PruningIsYoung(s.stamps[p.entry], p.now);
    forall key | key in s'.items && key !in p.todo ensures AllYoung(s'.stamps[s'.items[key]], p.now) {
      assert key != p.key ==> s.owners[s.items[key]] == key && s.items[key] != p.entry;
    }
  }

  /** While one thread sweeps, no other can list, drop or prune entries; it can only decide on them. */
  lemma OthersThorough(s: System, a: Action, t: Thread)
    requires Disciplined(s) && Thorough(s, t) && IsSweeping(At(s, t)) && (a.Tick? || a.t != t)
    ensures WellListed(Step(s, a)) && Thorough(Step(s, a), t)
  {
    var s', p := Step(s, a), At(s, t);
    OthersStay(s, a);
    StaysWellListed(s, a);
    assert HoldsStore(p) && s.storeMu == Some(t) && Sound(s, p);
    if Rewrites(a) && Enabled(s, a) {
      assert !HoldsStore(At(s, a.t));
      assert a.Decide?;
      forall key | key in s.items && key !in Unpruned(p) ensures AllYoung(s'.stamps[s.items[key]], p.now) {
        DecideStaysYoung(s, a.t, s.items[key], p.now);
      }
    } else {
      OthersRewriteNothing(s, a);
    }
  }

  lemma StaysThorough(s: System, a: Action, t: Thread)
    requires Disciplined(s) && Thorough(s, t)
    ensures WellListed(Step(s, a)) && Thorough(Step(s, a), t)
  {
    OthersStay(s, a);
    StaysWellListed(s, a);
    if !a.Tick? && a.t == t {
      if a.SweepPrune? && Enabled(s, a) {
        OwnPruneThorough(s, t);
      }
    } else if IsSweeping(At(s, t)) {
      OthersThorough(s, a, t);
    }
  }

  lemma {:induction false} RunThorough(actions: seq<Action>, t: Thread)
    ensures WellListed(Exec(actions)) && Thorough(Exec(actions), t)
  {
    if actions != [] {
      RunThorough(actions[..|actions| - 1], t);
      RunDisciplined(actions[..|actions| - 1]);
      StaysThorough(Exec(actions[..|actions| - 1]), actions[|actions| - 1], t);
    }
  }

  /** In every interleaving, when a sweep can end, no listed entry holds a stamp two minutes old at its beginning. */
  lemma SweepIsThorough(actions: seq<Action>, t: Thread, key: string)
    requires Enabled(Exec(actions), SweepDone(t)) && key in Exec(actions).items
    ensures Exec(actions).items[key] < |Exec(actions).stamps|
    ensures AllYoung(Exec(actions).stamps[Exec(actions).items[key]], At(Exec(actions), t).now)
  {
    RunThorough(actions, t);
  }

  // ---------------------------------------------------------------- no deadlock

  /** The steps by which a thread gets on with a call it has already begun. */
  ghost predicate Progress(s: System, a: Action) {
    Enabled(s, a) && !a.Tick? && !a.Begin? && !a.BeginSweep?
  }

  lemma EntryHolderMoves(s: System, e: nat) returns (a: Action)
    requires Disciplined(s) && e in s.entryMu
    ensures Progress(s, a)
  {
    var holder := s.entryMu[e];
    assert HoldsEntry(At(s, holder), e);
    assert Sound(s, At(s, holder));
    a := if At(s, holder).InEntry? then Decide(holder) else SweepPrune(holder);
  }

  lemma EntryWaiterMoves(s: System, t: Thread) returns (a: Action)
    requires Disciplined(s) && (At(s, t).WantsEntry? || At(s, t).SweepWantsEntry?)
    ensures Progress(s, a)
  {
    if At(s, t).entry in s.entryMu {
      a := EntryHolderMoves(s, At(s, t).entry);
    } else {
      a := LockEntry(t);
    }
  }

  lemma StoreHolderMoves(s: System, t: Thread) returns (a: Action)
    requires Disciplined(s) && HoldsStore(At(s, t))
    ensures Progress(s, a)
  {
    assert Sound(s, At(s, t));
    match At(s, t) {
      case InStore(_) => a := Lookup(t);
      case SweepLocked => a := SweepScan(t);
      case Sweeping(_, todo) =>
        if todo == {} {
          a := SweepDone(t);
        } else {
          var key :| key in todo;
          a := SweepNext(t, key);
        }
      case SweepWantsEntry(_, _, _, _) => a := EntryWaiterMoves(s, t);
      case SweepInEntry(_, _, _, _) => a := SweepPrune(t);
    }
  }

  /** In every reachable state in which some thread is busy, some busy thread can move. */
  lemma NoDeadlock(actions: seq<Action>, t: Thread) returns (a: Action)
    requires !At(Exec(actions), t).Idle?
    ensures Progress(Exec(actions), a)
  {
    var s := Exec(actions);
    RunDisciplined(actions);
    if s.storeMu.Some? {
      assert HoldsStore(At(s, s.storeMu.value));
      a := StoreHolderMoves(s, s.storeMu.value);
    } else if At(s, t).WantsStore? || At(s, t).SweepWaits? {
      a := LockStore(t);
    } else if At(s, t).InEntry? {
      assert HoldsEntry(At(s, t), At(s, t).entry);
      a := EntryHolderMoves(s, At(s, t).entry);
    } else {
      assert !HoldsStore(At(s, t));
      a := EntryWaiterMoves(s, t);
    }
  }

  // ---------------------------------------------------------------- admissions seen from an entry and from a key

  datatype View = OnEntry(entry: nat) | OfKey(key: string) | Listed(key: string) | Stranded(key: string)

  predicate Sees(v: View, a: Admission) {
    match v
    case OnEntry(e) => a.entry == e
    case OfKey(key) => a.key == key
    case Listed(key) => a.key == key && a.listed
    case Stranded(key) => a.key == key && !a.listed
  }

  /** The times of the admissions a view selects from the log. */
  function Times(log: seq<Admission>, v: View): seq<int> {
    if log == [] then []
    else
      var earlier, last := Times(log[..|log| - 1], v), log[|log| - 1];
      if Sees(v, last) then earlier + [last.at] else earlier
  }

  lemma TimesAppend(log: seq<Admission>, a: Admission, v: View)
    ensures Times(log + [a], v) == Times(log, v) + (if Sees(v, a) then [a.at] else [])
  {
    assert (log + [a])[..|log|] == log;
  }

  /** Timestamps that decide like the full history, and a history that respects the limit. */
  ghost predicate Tracks(stamps: seq<int>, history: seq<int>, limit: int, window: int, since: int) {
    && Remembers(stamps, history, window, since)
    && forall from :: InWindow(history, from, window) <= AtLeastZero(limit)
  }

  lemma TracksDecision(stamps: seq<int>, history: seq<int>, limit: int, window: int, now: int, own: int)
    requires Tracks(stamps, history, limit, window, now) && own <= limit
    ensures var valid := Younger(stamps, now, window);
            var added := if |valid| < own then [now] else [];
            Tracks(valid + added, history + added, limit, window, now)
  {
    var admit := |Younger(stamps, now, window)| < own;
    CheckRemembers(stamps, history, window, now, now, admit);
    var history' := history + (if admit then [now] else []);
    forall from ensures InWindow(history', from, window) <= AtLeastZero(limit) {
      if admit {
        AdmissionKeepsBound(history, now, limit, window, from);
      } else {
        assert history' == history;
      }
    }
  }

  lemma TracksPruning(stamps: seq<int>, history: seq<int>, limit: int, window: int, now: int, at: int)
    requires Tracks(stamps, history, limit, window, now) && at <= now && window <= RETENTION
    ensures Tracks(Younger(stamps, at, RETENTION), history, limit, window, now)
  {
    SweepRemembers(stamps, history, window, now, at, now);
  }

  function ListedStamps(s: System, key: string): seq<int>
    requires key in s.items ==> s.items[key] < |s.stamps|
  {
    if key in s.items then s.stamps[s.items[key]] else []
  }

  predicate MakesCall(p: Place) {
    p.WantsStore? || p.InStore? || p.WantsEntry? || p.InEntry?
  }

  /** All calls in progress for `key` use its window, and no higher limit. */
  ghost predicate Uniform(s: System, key: string, limit: int, window: int) {
    forall t: Thread :: MakesCall(At(s, t)) && At(s, t).call.key == key ==>
      At(s, t).call.limit <= limit && At(s, t).call.window == window
  }

  ghost predicate EntriesTracked(s: System, key: string, limit: int, window: int)
    requires WellListed(s)
  {
    forall e :: 0 <= e < |s.stamps| && s.owners[e] == key ==>
      Tracks(s.stamps[e], Times(s.log, OnEntry(e)), limit, window, s.clock)
  }

  ghost predicate LogOwned(s: System) {
    forall i :: 0 <= i < |s.log| ==> s.log[i].entry < |s.stamps|
  }

  ghost predicate KeyTracked(s: System, key: string, limit: int, window: int)
    requires WellListed(s)
  {
    Tracks(ListedStamps(s, key), Times(s.log, Listed(key)), limit, window, s.clock)
  }

  ghost predicate Exact(s: System, key: string, limit: int, window: int) {
    && Disciplined(s) && LogOwned(s) && Uniform(s, key, limit, window)
    && EntriesTracked(s, key, limit, window) && KeyTracked(s, key, limit, window)
  }

  ghost predicate CallsUniform(a: Action, key: string, limit: int, window: int) {
    a.Begin? && a.call.key == key ==> a.call.limit <= limit && a.call.window == window
  }

  lemma StaysUniform(s: System, a: Action, key: string, limit: int, window: int)
    requires Uniform(s, key, limit, window) && CallsUniform(a, key, limit, window)
    ensures Uniform(Step(s, a), key, limit, window)
  {
    OthersStay(s, a);
  }

  lemma {:induction false} NoTimesYet(log: seq<Admission>, e: nat)
    requires forall i :: 0 <= i < |log| ==> log[i].entry < e
    ensures Times(log, OnEntry(e)) == []
  {
    if log != [] {
      NoTimesYet(log[..|log| - 1], e);
    }
  }

  lemma NothingTracksNothing(limit: int, window: int, since: int)
    ensures Tracks([], [], limit, window, since)
  {}

  lemma LookupKeepsEntries(s: System, t: Thread, key: string, limit: int, window: int)
    requires Exact(s, key, limit, window) && Enabled(s, Lookup(t))
    ensures WellListed(Step(s, Lookup(t))) && EntriesTracked(Step(s, Lookup(t)), key, limit, window)
  {
    var s' := Step(s, Lookup(t));
    StaysWellListed(s, Lookup(t));
    forall e | 0 <= e < |s'.stamps| && s'.owners[e] == key
      ensures Tracks(s'.stamps[e], Times(s'.log, OnEntry(e)), limit, window, s'.clock)
    {
      if e == |s.stamps| {
        NoTimesYet(s.log, e);
        NothingTracksNothing(limit, window, s.clock);
      }
    }
  }

  /** What a decision adds to the history a view shows. */
  lemma DecideLogs(s: System, t: Thread, v: View)
    requires Enabled(s, Decide(t))
    ensures var call, e := At(s, t).call, At(s, t).entry;
            var listed := call.key in s.items && s.items[call.key] == e;
            var admit := |Younger(s.stamps[e], s.clock, call.window)| < call.limit;
            var added := if admit && Sees(v, Admission(call.key, e, s.clock, listed)) then [s.clock] else [];
            Times(Step(s, Decide(t)).log, v) == Times(s.log, v) + added
  {
    var call, e := At(s, t).call, At(s, t).entry;
    var listed := call.key in s.items && s.items[call.key] == e;
    TimesAppend(s.log, Admission(call.key, e, s.clock, listed), v);
    assert s.log + [] == s.log;
  }

  lemma DecideKeepsEntries(s: System, t: Thread, key: string, limit: int, window: int)
    requires Exact(s, key, limit, window) && Enabled(s, Decide(t))
    ensures WellListed(Step(s, Decide(t))) && EntriesTracked(Step(s, Decide(t)), key, limit, window)
  {
    var s' := Step(s, Decide(t));
    var call, e := At(s, t).call, At(s, t).entry;
    assert Sound(s, At(s, t));
    StaysWellListed(s, Decide(t));
    forall e' | 0 <= e' < |s'.stamps| && s'.owners[e'] == key
      ensures Tracks(s'.stamps[e'], Times(s'.log, OnEntry(e')), limit, window, s'.clock)
    {
      DecideLogs(s, t, OnEntry(e'));
      if e' == e {
        TracksDecision(s.stamps[e], Times(s.log, OnEntry(e)), limit, window, s.clock, call.limit);
      } else {
        assert Times(s.log, OnEntry(e')) + [] == Times(s.log, OnEntry(e'));
      }
    }
  }

  lemma DecideKeepsKey(s: System, t: Thread, key: string, limit: int, window: int)
    requires Exact(s, key, limit, window) && Enabled(s, Decide(t))
    ensures WellListed(Step(s, Decide(t))) && KeyTracked(Step(s, Decide(t)), key, limit, window)
  {
    var call, e := At(s, t).call, At(s, t).entry;
    assert Sound(s, At(s, t));
    StaysWellListed(s, Decide(t));
    DecideLogs(s, t, Listed(key));
    var history := Times(s.log, Listed(key));
    if key in s.items && s.items[key] == e {
      assert call.key == key;
      TracksDecision(s.stamps[e], history, limit, window, s.clock, call.limit);
    } else {
      assert history + [] == history;
    }
  }

  lemma PruneKeepsExact(s: System, t: Thread, key: string, limit: int, window: int)
    requires Exact(s, key, limit, window) && Enabled(s, SweepPrune(t)) && window <= RETENTION
    ensures WellListed(Step(s, SweepPrune(t)))
    ensures EntriesTracked(Step(s, SweepPrune(t)), key, limit, window)
    ensures KeyTracked(Step(s, SweepPrune(t)), key, limit, window)
  {
    var p := At(s, t);
    assert Sound(s, p);
    StaysWellListed(s, SweepPrune(t));
    if p.key == key {
      TracksPruning(s.stamps[p.entry], Times(s.log, OnEntry(p.entry)), limit, window, s.clock, p.now);
      TracksPruning(s.stamps[p.entry], Times(s.log, Listed(key)), limit, window, s.clock, p.now);
    }
  }

  predicate Rewrites(a: Action) {
    a.Lookup? || a.Decide? || a.SweepPrune?
  }

  /** All other actions leave stamps, lists and log alone. */
  lemma OthersRewriteNothing(s: System, a: Action)
    requires !Rewrites(a) || !Enabled(s, a)
    ensures var s' := Step(s, a);
            && s'.stamps == s.stamps && s'.items == s.items && s'.owners == s.owners && s'.log == s.log
            && s.clock <= s'.clock
  {}

  lemma TracksLater(stamps: seq<int>, history: seq<int>, limit: int, window: int, since: int, later: int)
    requires Tracks(stamps, history, limit, window, since) && since <= later
    ensures Tracks(stamps, history, limit, window, later)
  {}

  lemma OthersKeepExact(s: System, a: Action, key: string, limit: int, window: int)
    requires Exact(s, key, limit, window) && (!Rewrites(a) || !Enabled(s, a))
    ensures var s' := Step(s, a);
            && WellListed(s') && LogOwned(s')
            && EntriesTracked(s', key, limit, window) && KeyTracked(s', key, limit, window)
  {
    var s' := Step(s, a);
    OthersRewriteNothing(s, a);
    forall e | 0 <= e < |s.stamps| && s.owners[e] == key
      ensures Tracks(s'.stamps[e], Times(s'.log, OnEntry(e)), limit, window, s'.clock)
    {
      TracksLater(s.stamps[e], Times(s.log, OnEntry(e)), limit, window, s.clock, s'.clock);
    }
    TracksLater(ListedStamps(s, key), Times(s.log, Listed(key)), limit, window, s.clock, s'.clock);
  }

  lemma LookupKeepsKey(s: System, t: Thread, key: string, limit: int, window: int)
    requires Exact(s, key, limit, window) && Enabled(s, Lookup(t))
    ensures WellListed(Step(s, Lookup(t))) && KeyTracked(Step(s, Lookup(t)), key, limit, window)
  {
    StaysWellListed(s, Lookup(t));
    assert ListedStamps(Step(s, Lookup(t)), key) == ListedStamps(s, key);
  }

  lemma RewritesKeepLogOwned(s: System, a: Action)
    requires Disciplined(s) && LogOwned(s) && Rewrites(a) && Enabled(s, a)
    ensures LogOwned(Step(s, a))
  {
    assert Sound(s, At(s, a.t));
  }

  lemma StaysExact(s: System, a: Action, key: string, limit: int, window: int)
    requires Exact(s, key, limit, window) && CallsUniform(a, key, limit, window) && window <= RETENTION
    ensures Exact(Step(s, a), key, limit, window)
  {
    StaysDisciplined(s, a);
    StaysUniform(s, a, key, limit, window);
    if !Rewrites(a) || !Enabled(s, a) {
      OthersKeepExact(s, a, key, limit, window);
    } else {
      RewritesKeepLogOwned(s, a);
      RewritesKeepExact(s, a, key, limit, window);
    }
  }

  lemma RewritesKeepExact(s: System, a: Action, key: string, limit: int, window: int)
    requires Exact(s, key, limit, window) && window <= RETENTION && Rewrites(a) && Enabled(s, a)
    ensures var s' := Step(s, a);
            WellListed(s') && EntriesTracked(s', key, limit, window) && KeyTracked(s', key, limit, window)
  {
    match a {
      case Lookup(t) =>
        LookupKeepsEntries(s, t, key, limit, window);
        LookupKeepsKey(s, t, key, limit, window);
      case Decide(t) =>
        DecideKeepsEntries(s, t, key, limit, window);
        DecideKeepsKey(s, t, key, limit, window);
      case SweepPrune(t) => PruneKeepsExact(s, t, key, limit, window);
    }
  }

  ghost predicate RunUniform(actions: seq<Action>, key: string, limit: int, window: int) {
    forall i :: 0 <= i < |actions| ==> CallsUniform(actions[i], key, limit, window)
  }

  lemma {:induction false} RunExact(actions: seq<Action>, key: string, limit: int, window: int)
    requires RunUniform(actions, key, limit, window) && window <= RETENTION
    ensures Exact(Exec(actions), key, limit, window)
  {
    if actions == [] {
      NothingTracksNothing(limit, window, 0);
    } else {
      RunExact(actions[..|actions| - 1], key, limit, window);
      StaysExact(Exec(actions[..|actions| - 1]), actions[|actions| - 1], key, limit, window);
    }
  }

  // ---------------------------------------------------------------- the bounds

  /** In every interleaving, each entry object keeps the limit on its own. */
  lemma EntryBound(actions: seq<Action>, key: string, limit: int, window: int, e: nat, from: int)
    requires RunUniform(actions, key, limit, window) && window <= RETENTION
    requires e < |Exec(actions).owners| && Exec(actions).owners[e] == key
    ensures InWindow(Times(Exec(actions).log, OnEntry(e)), from, window) <= AtLeastZero(limit)
  {
    RunExact(actions, key, limit, window);
    assert Tracks(Exec(actions).stamps[e], Times(Exec(actions).log, OnEntry(e)), limit, window, Exec(actions).clock);
  }

  lemma CountLast(log: seq<Admission>, v: View, from: int, window: int)
    requires log != []
    ensures var last := log[|log| - 1];
            var more := if Sees(v, last) && from <= last.at < from + window then 1 else 0;
            InWindow(Times(log, v), from, window) == InWindow(Times(log[..|log| - 1], v), from, window) + more
  {
    CountAppend(Times(log[..|log| - 1], v), log[|log| - 1].at, from, from + window);
  }

  lemma {:induction false} ViewsAddUp(log: seq<Admission>, key: string, from: int, window: int)
    ensures InWindow(Times(log, OfKey(key)), from, window)
         == InWindow(Times(log, Listed(key)), from, window) + InWindow(Times(log, Stranded(key)), from, window)
  {
    if log != [] {
      var init, last := log[..|log| - 1], log[|log| - 1];
      ViewsAddUp(init, key, from, window);
      CountLast(log, OfKey(key), from, window);
      CountLast(log, Listed(key), from, window);
      CountLast(log, Stranded(key), from, window);
    }
  }

  /**
  In every interleaving, a key gets at most `limit` admissions into any window, plus those decided on
  an entry that the sweep had taken off the list between the lookup and the decision.
  */
  lemma KeyBound(actions: seq<Action>, key: string, limit: int, window: int, from: int)
    requires RunUniform(actions, key, limit, window) && window <= RETENTION
    ensures InWindow(Times(Exec(actions).log, OfKey(key)), from, window)
         <= AtLeastZero(limit) + InWindow(Times(Exec(actions).log, Stranded(key)), from, window)
  {
    RunExact(actions, key, limit, window);
    ViewsAddUp(Exec(actions).log, key, from, window);
    assert InWindow(Times(Exec(actions).log, Listed(key)), from, window) <= AtLeastZero(limit);
  }

  // ---------------------------------------------------------------- sweeps between lookup and decision

  /** The sweep drops the key's entry while a thread that has looked it up still waits for its lock. */
  ghost predicate Strands(s: System, a: Action, key: string) {
    && a.SweepPrune? && Enabled(s, a) && At(s, a.t).key == key
    && Younger(s.stamps[At(s, a.t).entry], At(s, a.t).now, RETENTION) == []
    && exists u: Thread :: At(s, u).WantsEntry? && At(s, u).entry == At(s, a.t).entry
  }

  ghost predicate NeverStrands(actions: seq<Action>, key: string) {
    forall i :: 0 <= i < |actions| ==> !Strands(Exec(actions[..i]), actions[i], key)
  }

  /** Whoever has looked the key up still holds the entry the store lists. */
  ghost predicate Current(s: System, key: string) {
    && (forall t: Thread :: (At(s, t).WantsEntry? || At(s, t).InEntry?) && At(s, t).call.key == key ==>
          key in s.items && s.items[key] == At(s, t).entry)
    && Times(s.log, Stranded(key)) == []
  }

  lemma StaysCurrent(s: System, a: Action, key: string)
    requires Disciplined(s) && Current(s, key) && !Strands(s, a, key)
    ensures Current(Step(s, a), key)
  {
    OthersStay(s, a);
    var s' := Step(s, a);
    if a.Decide? && Enabled(s, a) {
      DecideLogs(s, a.t, Stranded(key));
    }
    if a.SweepPrune? && Enabled(s, a) {
      PruneKeepsCurrent(s, a.t, key);
    }
  }

  lemma OneHolder(s: System, t: Thread, u: Thread, e: nat)
    requires EntriesExclusive(s) && t != u && HoldsEntry(At(s, t), e)
    ensures !HoldsEntry(At(s, u), e)
  {
    assert s.entryMu[e] == t;
  }

  lemma PruneKeepsCurrent(s: System, t: Thread, key: string)
    requires Disciplined(s) && Current(s, key)
    requires Enabled(s, SweepPrune(t)) && !Strands(s, SweepPrune(t), key)
    ensures Current(Step(s, SweepPrune(t)), key)
  {
    var p, s' := At(s, t), Step(s, SweepPrune(t));
    OthersStay(s, SweepPrune(t));
    assert Sound(s, p);
    forall u: Thread | (At(s', u).WantsEntry? || At(s', u).InEntry?) && At(s', u).call.key == key
      ensures key in s'.items && s'.items[key] == At(s', u).entry
    {
      assert u != t && At(s, u) == At(s', u);
      if p.key == key {
        OneHolder(s, t, u, p.entry);
      }
    }
  }

  lemma {:induction false} RunCurrent(actions: seq<Action>, key: string)
    requires NeverStrands(actions, key)
    ensures Current(Exec(actions), key)
  {
    if actions != [] {
      var before := actions[..|actions| - 1];
      StrandsNoEarlier(actions, key);
      RunCurrent(before, key);
      RunDisciplined(before);
      StaysCurrent(Exec(before), actions[|actions| - 1], key);
    }
  }

  /** If no sweep drops the key's entry between a lookup and its decision, the limit holds for the key. */
  lemma KeyBoundWithoutStranding(actions: seq<Action>, key: string, limit: int, window: int, from: int)
    requires RunUniform(actions, key, limit, window) && window <= RETENTION && NeverStrands(actions, key)
    ensures InWindow(Times(Exec(actions).log, OfKey(key)), from, window) <= AtLeastZero(limit)
  {
    KeyBound(actions, key, limit, window, from);
    RunCurrent(actions, key);
  }

  // ---------------------------------------------------------------- every interleaving is an atomic run

  /** The checks of a key in the order of their decisions, each at the time it decides. */
  ghost function Decisions(actions: seq<Action>, key: string): seq<Event> {
    if actions == [] then []
    else
      var before, a := actions[..|actions| - 1], actions[|actions| - 1];
      if DecidesOn(Exec(before), a, key) then Decisions(before, key) + [DecisionOf(Exec(before), a)]
      else Decisions(before, key)
  }

  predicate DecidesOn(s: System, a: Action, key: string) {
    a.Decide? && Enabled(s, a) && At(s, a.t).call.key == key
  }

  function DecisionOf(s: System, a: Action): Event
    requires a.Decide? && Enabled(s, a)
  {
    Check(At(s, a.t).call.key, At(s, a.t).call.limit, At(s, a.t).call.window, s.clock)
  }

  /** An atomic run that the limiter of `SlidingWindow` is exact about. */
  ghost predicate AtomicRun(events: seq<Event>, key: string, limit: int, window: int, upTo: int) {
    && Ordered(events) && UsedWith(events, key, limit, window)
    && forall i :: 0 <= i < |events| ==> events[i].at <= upTo
  }

  lemma AtomicRunGrows(events: seq<Event>, e: Event, key: string, limit: int, window: int)
    requires AtomicRun(events, key, limit, window, e.at) && e.Check? && e.limit <= limit && e.window == window
    ensures AtomicRun(events + [e], key, limit, window, e.at)
  {}

  /** In an atomic run the next check adds an admission exactly when fewer than its limit are young. */
  lemma AtomicAdmission(events: seq<Event>, e: Event, limit: int, window: int)
    requires e.Check? && AtomicRun(events, e.key, limit, window, e.at) && e.limit <= limit && e.window == window
    requires window <= RETENTION
    ensures var past := Admissions(events, e.key);
            Admissions(events + [e], e.key) == past + (if |Younger(past, e.at, window)| < e.limit then [e.at] else [])
  {
    var all, n := events + [e], |events|;
    assert all[..n] == events && all[n] == e;
    AtomicRunGrows(events, e, e.key, limit, window);
    DecisionIsExact(all, n, limit, window);
    AdmissionsLast(all, n, e.key);
  }

  lemma ClockAdvances(s: System, a: Action)
    ensures s.clock <= Step(s, a).clock
  {}

  lemma {:induction false} DecisionsAtomic(actions: seq<Action>, key: string, limit: int, window: int)
    requires RunUniform(actions, key, limit, window) && window <= RETENTION
    ensures AtomicRun(Decisions(actions, key), key, limit, window, Exec(actions).clock)
  {
    if actions != [] {
      var before, a := actions[..|actions| - 1], actions[|actions| - 1];
      DecisionsAtomic(before, key, limit, window);
      ClockAdvances(Exec(before), a);
      if DecidesOn(Exec(before), a, key) {
        RunExact(before, key, limit, window);
        AtomicRunGrows(Decisions(before, key), DecisionOf(Exec(before), a), key, limit, window);
      }
    }
  }

  lemma {:induction false} AllListed(log: seq<Admission>, key: string)
    requires Times(log, Stranded(key)) == []
    ensures Times(log, OfKey(key)) == Times(log, Listed(key))
  {
    if log != [] {
      AllListed(log[..|log| - 1], key);
    }
  }

  /** On the entry the store lists, a decision sees what the full history of the key would show. */
  lemma DecisionSeesHistory(s: System, t: Thread, key: string, limit: int, window: int)
    requires Exact(s, key, limit, window) && Current(s, key) && DecidesOn(s, Decide(t), key)
    ensures At(s, t).entry < |s.stamps| && At(s, t).call.window == window
    ensures Younger(s.stamps[At(s, t).entry], s.clock, window) == Younger(Times(s.log, OfKey(key)), s.clock, window)
  {
    AllListed(s.log, key);
    assert key in s.items && s.items[key] == At(s, t).entry;
    assert Remembers(ListedStamps(s, key), Times(s.log, Listed(key)), window, s.clock);
  }

  lemma OtherLogsStay(s: System, a: Action, key: string)
    requires !DecidesOn(s, a, key)
    ensures Times(Step(s, a).log, OfKey(key)) == Times(s.log, OfKey(key))
  {
    if a.Decide? && Enabled(s, a) {
      DecideLogs(s, a.t, OfKey(key));
    }
  }

  /**
  If no sweep drops the key's entry between a lookup and its decision, every interleaving admits
  exactly what the atomic limiter admits when the same checks run one by one in the order of their
  decisions.
  */
  lemma {:induction false} InterleavingIsAtomic(actions: seq<Action>, key: string, limit: int, window: int)
    requires RunUniform(actions, key, limit, window) && window <= RETENTION && NeverStrands(actions, key)
    ensures Times(Exec(actions).log, OfKey(key)) == Admissions(Decisions(actions, key), key)
  {
    if actions != [] {
      var before, a := actions[..|actions| - 1], actions[|actions| - 1];
      StrandsNoEarlier(actions, key);
      InterleavingIsAtomic(before, key, limit, window);
      if DecidesOn(Exec(before), a, key) {
        DecideAsAtomic(before, a.t, key, limit, window);
      } else {
        OtherLogsStay(Exec(before), a, key);
      }
    }
  }

  lemma StrandsNoEarlier(actions: seq<Action>, key: string)
    requires actions != [] && NeverStrands(actions, key)
    ensures NeverStrands(actions[..|actions| - 1], key)
  {
    var before := actions[..|actions| - 1];
    forall i | 0 <= i < |before| ensures !Strands(Exec(before[..i]), before[i], key) {
      assert before[..i] == actions[..i];
    }
  }

  lemma DecideAsAtomic(before: seq<Action>, t: Thread, key: string, limit: int, window: int)
    requires RunUniform(before, key, limit, window) && window <= RETENTION && NeverStrands(before, key)
    requires DecidesOn(Exec(before), Decide(t), key)
    requires Times(Exec(before).log, OfKey(key)) == Admissions(Decisions(before, key), key)
    ensures var e := DecisionOf(Exec(before), Decide(t));
            Times(Step(Exec(before), Decide(t)).log, OfKey(key)) == Admissions(Decisions(before, key) + [e], key)
  {
    var s, events := Exec(before), Decisions(before, key);
    var e := DecisionOf(s, Decide(t));
    RunExact(before, key, limit, window);
    RunCurrent(before, key);
    DecisionSeesHistory(s, t, key, limit, window);
    DecideLogs(s, t, OfKey(key));
    DecisionsAtomic(before, key, limit, window);
    AtomicAdmission(events, e, limit, window);
  }

  // ---------------------------------------------------------------- runs that strand a thread

  /** No lock is taken and the two threads that will go on are idle. */
  ghost predicate Quiet(s: System) {
    s.clock == 0 && s.storeMu == None && s.entryMu == map[] && At(s, 1).Idle? && At(s, 2).Idle?
  }

  lemma ExecOne(before: seq<Action>, a: Action)
    ensures Exec(before + [a]) == Step(Exec(before), a)
  {
    assert (before + [a])[..|before|] == before;
  }

  /** Thread 0 looks the key up and pauses. */
  function LookUp(call: Call): seq<Action> {
    [Begin(0, call)] + [LockStore(0)] + [Lookup(0)]
  }

  /** Thread 1 sweeps the still empty entry away. */
  function StartSweep(call: Call): seq<Action> {
    LookUp(call) + [BeginSweep(1)] + [LockStore(1)] + [SweepScan(1)]
  }

  function Strand(call: Call): seq<Action> {
    StartSweep(call) + [SweepNext(1, call.key)] + [LockEntry(1)] + [SweepPrune(1)] + [SweepDone(1)]
  }

  /** Thread 2 makes one check, or `n` checks one after the other. */
  function Round(before: seq<Action>, call: Call): seq<Action> {
    before + [Begin(2, call)] + [LockStore(2)] + [Lookup(2)] + [LockEntry(2)] + [Decide(2)]
  }

  function Refill(call: Call, n: nat): seq<Action> {
    if n == 0 then Strand(call) else Round(Refill(call, n - 1), call)
  }

  /** Then thread 0 decides on the entry it looked up. */
  function StrandingRun(call: Call, n: nat): seq<Action> {
    Refill(call, n) + [LockEntry(0)] + [Decide(0)]
  }

  function Scanned(call: Call): System {
    System(0, Some(1), map[], map[call.key := 0], [[]], [call.key],
           map[0 := WantsEntry(call, 0), 1 := Sweeping(0, {call.key})], [])
  }

  function Pruned(call: Call): System {
    Scanned(call).(items := map[], places := map[0 := WantsEntry(call, 0), 1 := Sweeping(0, {})])
  }

  lemma AfterLookUp(call: Call)
    ensures Exec(LookUp(call))
         == System(0, None, map[], map[call.key := 0], [[]], [call.key], map[0 := WantsEntry(call, 0)], [])
  {
    assert [Begin(0, call)][..0] == [];
    ExecOne([Begin(0, call)], LockStore(0));
    ExecOne([Begin(0, call)] + [LockStore(0)], Lookup(0));
    assert Exec(LookUp(call)).places == map[0 := WantsEntry(call, 0)];
  }

  lemma ScanSteps(s: System, call: Call)
    requires s == System(0, None, map[], map[call.key := 0], [[]], [call.key], map[0 := WantsEntry(call, 0)], [])
    ensures Step(Step(Step(s, BeginSweep(1)), LockStore(1)), SweepScan(1)) == Scanned(call)
  {
    assert s.items.Keys == {call.key};
    var s' := Step(Step(Step(s, BeginSweep(1)), LockStore(1)), SweepScan(1));
    assert s'.places == Scanned(call).places;
  }

  lemma AfterSweepScan(call: Call)
    ensures Exec(StartSweep(call)) == Scanned(call)
  {
    AfterLookUp(call);
    ScanSteps(Exec(LookUp(call)), call);
    ExecOne(LookUp(call), BeginSweep(1));
    ExecOne(LookUp(call) + [BeginSweep(1)], LockStore(1));
    ExecOne(LookUp(call) + [BeginSweep(1)] + [LockStore(1)], SweepScan(1));
  }

  lemma PruneSteps(call: Call)
    ensures Step(Step(Step(Scanned(call), SweepNext(1, call.key)), LockEntry(1)), SweepPrune(1)) == Pruned(call)
  {
    var s := Scanned(call);
    var s1 := Step(s, SweepNext(1, call.key));
    assert {call.key} - {call.key} == {};
    var s2 := Step(s1, LockEntry(1));
    var s3 := Step(s2, SweepPrune(1));
    assert s3.places == Pruned(call).places && s3.items == map[] && s3.entryMu == map[];
  }

  lemma AfterStrand(call: Call)
    ensures Exec(Strand(call)) == Step(Pruned(call), SweepDone(1))
  {
    AfterSweepScan(call);
    PruneSteps(call);
    var r := StartSweep(call);
    ExecOne(r, SweepNext(1, call.key));
    ExecOne(r + [SweepNext(1, call.key)], LockEntry(1));
    ExecOne(r + [SweepNext(1, call.key)] + [LockEntry(1)], SweepPrune(1));
    ExecOne(r + [SweepNext(1, call.key)] + [LockEntry(1)] + [SweepPrune(1)], SweepDone(1));
  }

  /** Thread 0 still waits for its old entry, and the key has `n` admissions on another one. */
  ghost predicate Refilled(s: System, call: Call, n: nat) {
    && Quiet(s) && WellListed(s) && At(s, 0) == WantsEntry(call, 0)
    && |s.stamps| > 0 && s.stamps[0] == [] && (call.key in s.items ==> s.items[call.key] != 0)
    && ListedStamps(s, call.key) == Zeros(n)
    && Times(s.log, OfKey(call.key)) == Zeros(n)
  }

  ghost predicate HasLookedUp(s: System, call: Call, n: nat) {
    && s.clock == 0 && s.storeMu == None && s.entryMu == map[] && WellListed(s)
    && At(s, 0) == WantsEntry(call, 0) && At(s, 1).Idle?
    && |s.stamps| > 0 && s.stamps[0] == [] && Times(s.log, OfKey(call.key)) == Zeros(n)
    && call.key in s.items && s.items[call.key] != 0 && s.stamps[s.items[call.key]] == Zeros(n)
    && At(s, 2) == WantsEntry(call, s.items[call.key])
  }

  lemma RefillLooksUp(s: System, call: Call, n: nat)
    requires Refilled(s, call, n)
    ensures var s' := AfterEntering(s, 2, call);
            HasLookedUp(s', call, n)
  {
    StaysWellListed(s, Begin(2, call));
    StaysWellListed(Step(s, Begin(2, call)), LockStore(2));
    StaysWellListed(Step(Step(s, Begin(2, call)), LockStore(2)), Lookup(2));
    assert call.key !in s.items ==> Zeros(n) == [];
  }

  /** Thread 2 holds the lock of the entry now listed for the key, which has `n` admissions. */
  ghost predicate AboutToDecide(s: System, call: Call, n: nat, e: nat) {
    && s.clock == 0 && s.storeMu == None && s.entryMu == map[e := 2] && WellListed(s)
    && At(s, 0) == WantsEntry(call, 0) && At(s, 1).Idle? && At(s, 2) == InEntry(call, e)
    && 0 < e < |s.stamps| && s.stamps[0] == [] && s.stamps[e] == Zeros(n)
    && call.key in s.items && s.items[call.key] == e && Times(s.log, OfKey(call.key)) == Zeros(n)
  }

  lemma RefillLocks(s: System, call: Call, n: nat)
    requires HasLookedUp(s, call, n)
    ensures AboutToDecide(Step(s, LockEntry(2)), call, n, s.items[call.key])
  {
    StaysWellListed(s, LockEntry(2));
  }

  lemma RefillDecides(s: System, call: Call, n: nat, e: nat)
    requires n < call.limit && 0 < call.window && AboutToDecide(s, call, n, e)
    ensures Refilled(Step(s, Decide(2)), call, n + 1)
  {
    StaysWellListed(s, Decide(2));
    ZerosCount(n, 0, call.window, 0, 1);
    DecideLogs(s, 2, OfKey(call.key));
    assert s.entryMu - {e} == map[];
  }

  lemma ExecRound(r: seq<Action>, call: Call)
    ensures Exec(Round(r, call)) == Step(Step(AfterEntering(Exec(r), 2, call), LockEntry(2)), Decide(2))
  {
    ExecOne(r, Begin(2, call));
    ExecOne(r + [Begin(2, call)], LockStore(2));
    ExecOne(r + [Begin(2, call)] + [LockStore(2)], Lookup(2));
    ExecOne(r + [Begin(2, call)] + [LockStore(2)] + [Lookup(2)], LockEntry(2));
    ExecOne(r + [Begin(2, call)] + [LockStore(2)] + [Lookup(2)] + [LockEntry(2)], Decide(2));
  }

  lemma RoundRefills(s: System, call: Call, n: nat)
    requires n < call.limit && 0 < call.window && Refilled(s, call, n)
    ensures Refilled(Step(Step(AfterEntering(s, 2, call), LockEntry(2)), Decide(2)), call, n + 1)
  {
    RefillLooksUp(s, call, n);
    RefillLocks(AfterEntering(s, 2, call), call, n);
    RefillDecides(Step(AfterEntering(s, 2, call), LockEntry(2)), call, n, AfterEntering(s, 2, call).items[call.key]);
  }

  lemma StrandedIsRefilled(call: Call)
    requires 0 < call.window
    ensures Refilled(Exec(Refill(call, 0)), call, 0)
  {
    AfterStrand(call);
    RunDisciplined(Strand(call));
  }

  lemma {:induction false} AfterRefill(call: Call, n: nat)
    requires n <= call.limit && 0 < call.window
    ensures Refilled(Exec(Refill(call, n)), call, n)
  {
    if n == 0 {
      StrandedIsRefilled(call);
    } else {
      AfterRefill(call, n - 1);
      ExecRound(Refill(call, n - 1), call);
      RoundRefills(Exec(Refill(call, n - 1)), call, n - 1);
    }
  }

  /** Whatever the key, the limit and the window, a full limit and one more get in at the same instant. */
  lemma StrandingExceeds(call: Call)
    requires 1 <= call.limit && 0 < call.window
    ensures InWindow(Times(Exec(StrandingRun(call, call.limit)).log, OfKey(call.key)), 0, call.window) == call.limit + 1
  {
    var n := call.limit;
    var r := Refill(call, n);
    AfterRefill(call, n);
    ExecOne(r, LockEntry(0));
    ExecOne(r + [LockEntry(0)], Decide(0));
    DecideLogs(Exec(r + [LockEntry(0)]), 0, OfKey(call.key));
    ZerosCount(n, 0, call.window, 0, call.window);
    CountAppend(Zeros(n), 0, 0, call.window);
  }

  lemma {:induction false} RefillUniform(call: Call, n: nat)
    ensures RunUniform(Refill(call, n), call.key, call.limit, call.window)
  {
    if n > 0 {
      RefillUniform(call, n - 1);
    }
  }

  // ---------------------------------------------------------------- when the limit holds for keys

  /** The limit of a key holds in every interleaving, sweeps between lookups and decisions included. */
  ghost predicate KeyLimitHolds(key: string, limit: int, window: int) {
    forall actions, from :: RunUniform(actions, key, limit, window) ==>
      InWindow(Times(Exec(actions).log, OfKey(key)), from, window) <= AtLeastZero(limit)
  }

  lemma {:induction false} NothingAdmitted(actions: seq<Action>, key: string, limit: int, window: int)
    requires RunUniform(actions, key, limit, window) && limit <= 0
    ensures Uniform(Exec(actions), key, limit, window) && Times(Exec(actions).log, OfKey(key)) == []
  {
    if actions != [] {
      var before, a := actions[..|actions| - 1], actions[|actions| - 1];
      NothingAdmitted(before, key, limit, window);
      StaysUniform(Exec(before), a, key, limit, window);
      if a.Decide? && Enabled(Exec(before), a) {
        DecideLogs(Exec(before), a.t, OfKey(key));
      }
    }
  }

  /** Without the schedule condition the limit holds only where nothing can be admitted into a window at all. */
  lemma KeyLimitHoldsIff(key: string, limit: int, window: int)
    ensures KeyLimitHolds(key, limit, window) <==> limit <= 0 || window <= 0
  {
    if limit <= 0 || window <= 0 {
      forall actions, from | RunUniform(actions, key, limit, window)
        ensures InWindow(Times(Exec(actions).log, OfKey(key)), from, window) <= AtLeastZero(limit)
      {
        if window <= 0 {
          EmptyWindow(Times(Exec(actions).log, OfKey(key)), from, window);
        } else {
          NothingAdmitted(actions, key, limit, window);
        }
      }
    } else {
      var call := Call(key, limit, window);
      StrandingExceeds(call);
      RefillUniform(call, limit);
      assert RunUniform(StrandingRun(call, limit), key, limit, window);
    }
  }
}
