/**
Attempts at backup codes that overlap. Both handlers read the stored list, look for the code in what
they read, and write the shortened list back; between the read and the write others may do the same, so
a write can put a used code back. This module proves exactly when codes are still not overspent.
*/
module BackupCodeRaces {
  import opened Options
  import opened BackupCodes

  /** The two accesses of the i-th attempt to the stored list. */
  datatype Event = Read(i: nat) | Write(i: nat)

  datatype State = State(stored: seq<string>, seen: map<nat, seq<string>>, written: set<nat>, accepted: seq<nat>)

  predicate Hits(d: Decrypt, codes: seq<string>, a: Attempt) {
    FirstMatch(d, codes, a) < |codes|
  }

  function AfterWrite(d: Decrypt, s: State, i: nat, a: Attempt): State
    requires i in s.seen
  {
    var seen := s.seen[i];
    s.(stored := if Hits(d, seen, a) && a.stored then RemoveAt(seen, FirstMatch(d, seen, a)) else s.stored,
       written := s.written + {i},
       accepted := if Accepts(d, seen, a) then s.accepted + [i] else s.accepted)
  }

  /** Each attempt reads once and then writes once; anything else does nothing. */
  function Next(d: Decrypt, tries: seq<Attempt>, s: State, e: Event): State {
    match e
    case Read(i) => if i < |tries| && i !in s.seen then s.(seen := s.seen[i := s.stored]) else s
    case Write(i) => if i < |tries| && i in s.seen && i !in s.written then AfterWrite(d, s, i, tries[i]) else s
  }

  function Exec(d: Decrypt, codes: seq<string>, tries: seq<Attempt>, schedule: seq<Event>): State {
    if schedule == [] then State(codes, map[], {}, [])
    else Next(d, tries, Exec(d, codes, tries, schedule[..|schedule| - 1]), schedule[|schedule| - 1])
  }

  lemma ExecNext(d: Decrypt, codes: seq<string>, tries: seq<Attempt>, schedule: seq<Event>, n: nat)
    requires n < |schedule|
    ensures Exec(d, codes, tries, schedule[..n + 1])
         == Next(d, tries, Exec(d, codes, tries, schedule[..n]), schedule[n])
  {
    assert schedule[..n + 1][..n] == schedule[..n];
  }

  // ---------------------------------------------------------------- who has read and written

  ghost predicate NoRepeats(schedule: seq<Event>) {
    forall p, q :: 0 <= p < q < |schedule| ==> schedule[p] != schedule[q]
  }

  predicate Occurs(schedule: seq<Event>, p: int, e: Event) {
    0 <= p < |schedule| && schedule[p] == e
  }

  lemma {:induction false} SeenIff(d: Decrypt, codes: seq<string>, tries: seq<Attempt>, schedule: seq<Event>,
                                   n: nat, i: nat)
    requires n <= |schedule|
    ensures i in Exec(d, codes, tries, schedule[..n]).seen <==>
            i < |tries| && exists p :: p < n && Occurs(schedule, p, Read(i))
  {
    if n > 0 {
      SeenIff(d, codes, tries, schedule, n - 1, i);
      ExecNext(d, codes, tries, schedule, n - 1);
      assert schedule[n - 1] == Read(i) ==> Occurs(schedule, n - 1, Read(i));
      if p :| p < n && Occurs(schedule, p, Read(i)) {
        assert p == n - 1 || p < n - 1;
      }
    }
  }

  /** The attempt has read and then written within the first `n` events. */
  ghost predicate Finished(schedule: seq<Event>, n: int, i: nat) {
    exists p, q :: p < q < n && Occurs(schedule, p, Read(i)) && Occurs(schedule, q, Write(i))
  }

  lemma FinishedOneMore(schedule: seq<Event>, n: nat, i: nat)
    requires n < |schedule|
    ensures Finished(schedule, n + 1, i) <==>
            Finished(schedule, n, i)
            || (schedule[n] == Write(i) && exists p :: p < n && Occurs(schedule, p, Read(i)))
  {
    if Finished(schedule, n + 1, i) {
      var p, q :| p < q < n + 1 && Occurs(schedule, p, Read(i)) && Occurs(schedule, q, Write(i));
      assert q < n || q == n;
    }
    if schedule[n] == Write(i) {
      assert Occurs(schedule, n, Write(i));
    }
  }

  lemma {:induction false} WrittenIff(d: Decrypt, codes: seq<string>, tries: seq<Attempt>, schedule: seq<Event>,
                                      n: nat, i: nat)
    requires n <= |schedule|
    ensures i in Exec(d, codes, tries, schedule[..n]).written <==> i < |tries| && Finished(schedule, n, i)
  {
    if n > 0 {
      WrittenIff(d, codes, tries, schedule, n - 1, i);
      SeenIff(d, codes, tries, schedule, n - 1, i);
      ExecNext(d, codes, tries, schedule, n - 1);
      FinishedOneMore(schedule, n - 1, i);
    }
  }

  // ---------------------------------------------------------------- separate attempts

  /** The i-th attempt records its acceptance before the j-th reads. */
  ghost predicate RecordsBefore(tries: seq<Attempt>, schedule: seq<Event>, i: nat, j: nat)
    requires i < |tries|
  {
    tries[i].stored && exists p, q :: p < q && Occurs(schedule, p, Write(i)) && Occurs(schedule, q, Read(j))
  }

  ghost predicate IsRival(tries: seq<Attempt>, schedule: seq<Event>, i: nat) {
    i < |tries| && CanAccept(tries[i]) && Finished(schedule, |schedule|, i)
  }

  /** Of any two attempts that can be accepted, one records its acceptance before the other reads. */
  ghost predicate AllSeparate(tries: seq<Attempt>, schedule: seq<Event>) {
    forall i: nat, j: nat :: i != j && IsRival(tries, schedule, i) && IsRival(tries, schedule, j) ==>
      RecordsBefore(tries, schedule, i, j) || RecordsBefore(tries, schedule, j, i)
  }

  /** How many of the accepted attempts typed this form, or typed it and were not recorded. */
  function CountAccepted(tries: seq<Attempt>, accepted: seq<nat>, form: string): nat {
    if accepted == [] then 0
    else
      var k := accepted[|accepted| - 1];
      CountAccepted(tries, accepted[..|accepted| - 1], form)
      + (if k < |tries| && Normal(tries[k].code) == form then 1 else 0)
  }

  function CountLost(tries: seq<Attempt>, accepted: seq<nat>, form: string): nat {
    if accepted == [] then 0
    else
      var k := accepted[|accepted| - 1];
      CountLost(tries, accepted[..|accepted| - 1], form)
      + (if k < |tries| && Normal(tries[k].code) == form && !tries[k].stored then 1 else 0)
  }

  lemma OneMoreAccepted(tries: seq<Attempt>, accepted: seq<nat>, i: nat, form: string)
    requires i < |tries|
    ensures var more := if Normal(tries[i].code) == form then 1 else 0;
            CountAccepted(tries, accepted + [i], form) == CountAccepted(tries, accepted, form) + more
    ensures var lost := if Normal(tries[i].code) == form && !tries[i].stored then 1 else 0;
            CountLost(tries, accepted + [i], form) == CountLost(tries, accepted, form) + lost
  {
    assert (accepted + [i])[..|accepted|] == accepted;
  }

  lemma {:induction false} LostMeansAttempt(tries: seq<Attempt>, accepted: seq<nat>, form: string)
    requires CountLost(tries, accepted, form) > 0
    ensures exists k :: k in accepted && k < |tries| && !tries[k].stored
  {
    var n := |accepted| - 1;
    var k := accepted[n];
    if !(k < |tries| && Normal(tries[k].code) == form && !tries[k].stored) {
      LostMeansAttempt(tries, accepted[..n], form);
    }
  }

  // ---------------------------------------------------------------- separate attempts do not overspend

  ghost predicate Balanced(d: Decrypt, codes: seq<string>, tries: seq<Attempt>, s: State, form: string) {
    && CountAccepted(tries, s.accepted, form) + CountForm(d, s.stored, form)
       == CountForm(d, codes, form) + CountLost(tries, s.accepted, form)
    && CountLost(tries, s.accepted, form) <= CountForm(d, s.stored, form)
  }

  /** An attempt that is still to be finished sees the list as it is. */
  ghost predicate UpToDate(tries: seq<Attempt>, schedule: seq<Event>, s: State) {
    forall i: nat :: IsRival(tries, schedule, i) && i in s.seen && i !in s.written ==> s.seen[i] == s.stored
  }

  /** Accepted attempts have been able to be accepted, and have written. */
  ghost predicate AcceptedWrote(tries: seq<Attempt>, s: State) {
    forall k :: k in s.accepted ==> k < |tries| && CanAccept(tries[k]) && k in s.written
  }

  lemma {:induction false} RunAcceptedWrote(d: Decrypt, codes: seq<string>, tries: seq<Attempt>, schedule: seq<Event>,
                                            n: nat)
    requires n <= |schedule|
    ensures AcceptedWrote(tries, Exec(d, codes, tries, schedule[..n]))
  {
    if n > 0 {
      RunAcceptedWrote(d, codes, tries, schedule, n - 1);
      ExecNext(d, codes, tries, schedule, n - 1);
    }
  }

  lemma FinishedLater(schedule: seq<Event>, n: nat, m: nat, i: nat)
    requires n <= m && Finished(schedule, n, i)
    ensures Finished(schedule, m, i)
  {}

  /** The attempt that writes at `n` cannot have recorded before another read that came earlier. */
  lemma NotRecordedBefore(tries: seq<Attempt>, schedule: seq<Event>, n: nat, i: nat, j: nat, p: nat)
    requires NoRepeats(schedule) && i < |tries|
    requires Occurs(schedule, n, Write(i)) && p < n && Occurs(schedule, p, Read(j))
    ensures !RecordsBefore(tries, schedule, i, j)
  {
  }

  /** When a rival writes, no earlier acceptance has gone unrecorded. */
  lemma NothingLostYet(d: Decrypt, codes: seq<string>, tries: seq<Attempt>, schedule: seq<Event>, n: nat, i: nat,
                       form: string)
    requires NoRepeats(schedule) && AllSeparate(tries, schedule) && n < |schedule| && schedule[n] == Write(i)
    requires var s := Exec(d, codes, tries, schedule[..n]); i in s.seen && i !in s.written
    requires i < |tries| && CanAccept(tries[i])
    ensures CountLost(tries, Exec(d, codes, tries, schedule[..n]).accepted, form) == 0
  {
    var s := Exec(d, codes, tries, schedule[..n]);
    if CountLost(tries, s.accepted, form) > 0 {
      LostMeansAttempt(tries, s.accepted, form);
      var k :| k in s.accepted && k < |tries| && !tries[k].stored;
      RunAcceptedWrote(d, codes, tries, schedule, n);
      WrittenIff(d, codes, tries, schedule, n, k);
      FinishedLater(schedule, n, |schedule|, k);
      RivalWrites(d, codes, tries, schedule, n, i);
      var p, q :| p < q < n && Occurs(schedule, p, Read(k)) && Occurs(schedule, q, Write(k));
      NotRecordedBefore(tries, schedule, n, i, k, p);
      assert false;
    }
  }

  lemma RivalWrites(d: Decrypt, codes: seq<string>, tries: seq<Attempt>, schedule: seq<Event>, n: nat, i: nat)
    requires n < |schedule| && schedule[n] == Write(i) && i in Exec(d, codes, tries, schedule[..n]).seen
    ensures Finished(schedule, |schedule|, i)
  {
    SeenIff(d, codes, tries, schedule, n, i);
    var p :| p < n && Occurs(schedule, p, Read(i));
    assert Occurs(schedule, n, Write(i));
  }

  /** Two attempts that have both read before either writes are not separate. */
  lemma OverlapIsNotSeparate(tries: seq<Attempt>, schedule: seq<Event>, n: nat, i: nat, j: nat)
    requires NoRepeats(schedule) && i < |tries| && j < |tries| && Occurs(schedule, n, Write(i))
    requires exists p :: p < n && Occurs(schedule, p, Read(i))
    requires exists p :: p < n && Occurs(schedule, p, Read(j))
    requires Finished(schedule, |schedule|, j) && !Finished(schedule, n, j)
    ensures !RecordsBefore(tries, schedule, i, j) && !RecordsBefore(tries, schedule, j, i)
  {
    var pi :| pi < n && Occurs(schedule, pi, Read(i));
    var pj :| pj < n && Occurs(schedule, pj, Read(j));
    NotRecordedBefore(tries, schedule, n, i, j, pj);
    LaterWrite(schedule, n, j, pj);
    var q :| n <= q && Occurs(schedule, q, Write(j));
    NotRecordedBefore(tries, schedule, q, j, i, pi);
  }

  /** When a rival writes, no other rival is between its read and its write. */
  lemma NoneInBetween(d: Decrypt, codes: seq<string>, tries: seq<Attempt>, schedule: seq<Event>, n: nat, i: nat, j: nat)
    requires NoRepeats(schedule) && AllSeparate(tries, schedule) && n < |schedule| && schedule[n] == Write(i)
    requires var s := Exec(d, codes, tries, schedule[..n]);
             i in s.seen && i !in s.written && j in s.seen && j !in s.written
    requires i != j && i < |tries| && CanAccept(tries[i])
    ensures !IsRival(tries, schedule, j)
  {
    RivalWrites(d, codes, tries, schedule, n, i);
    SeenIff(d, codes, tries, schedule, n, i);
    SeenIff(d, codes, tries, schedule, n, j);
    WrittenIff(d, codes, tries, schedule, n, j);
    assert Occurs(schedule, n, Write(i)) && IsRival(tries, schedule, i);
    if IsRival(tries, schedule, j) {
      OverlapIsNotSeparate(tries, schedule, n, i, j);
      assert false;
    }
  }

  lemma LaterWrite(schedule: seq<Event>, n: nat, j: nat, pj: nat)
    requires NoRepeats(schedule) && pj < n <= |schedule| && Occurs(schedule, pj, Read(j))
    requires Finished(schedule, |schedule|, j) && !Finished(schedule, n, j)
    ensures exists q :: n <= q && Occurs(schedule, q, Write(j))
  {
    var p, q :| p < q < |schedule| && Occurs(schedule, p, Read(j)) && Occurs(schedule, q, Write(j));
    assert p == pj;
    assert q >= n;
  }

  lemma WriteKeepsBalance(d: Decrypt, codes: seq<string>, tries: seq<Attempt>, s: State, i: nat, form: string)
    requires Balanced(d, codes, tries, s, form) && i in s.seen && i < |tries|
    requires CanAccept(tries[i]) ==> s.seen[i] == s.stored && CountLost(tries, s.accepted, form) == 0
    ensures Balanced(d, codes, tries, AfterWrite(d, s, i, tries[i]), form)
  {
    var a := tries[i];
    if Accepts(d, s.seen[i], a) {
      var m := FirstMatch(d, s.stored, a);
      MatchHasForm(d, s.stored[m], a);
      OneMoreAccepted(tries, s.accepted, i, form);
      if a.stored {
        CountRemoved(d, s.stored, m, form);
      } else if Normal(a.code) == form {
        FoundIsCounted(d, s.stored, m, form);
      }
    }
  }

  lemma MatchHasForm(d: Decrypt, encrypted: string, a: Attempt)
    requires Matches(d, encrypted, a)
    ensures forall form :: IsForm(d, encrypted, form) <==> form == Normal(a.code)
  {}

  lemma {:induction false} SeparateRun(d: Decrypt, codes: seq<string>, tries: seq<Attempt>, schedule: seq<Event>,
                                       n: nat, form: string)
    requires NoRepeats(schedule) && AllSeparate(tries, schedule) && n <= |schedule|
    ensures var s := Exec(d, codes, tries, schedule[..n]);
            Balanced(d, codes, tries, s, form) && UpToDate(tries, schedule, s)
  {
    if n > 0 {
      var s, e := Exec(d, codes, tries, schedule[..n - 1]), schedule[n - 1];
      SeparateRun(d, codes, tries, schedule, n - 1, form);
      ExecNext(d, codes, tries, schedule, n - 1);
      if e.Write? && e.i < |tries| && e.i in s.seen && e.i !in s.written {
        SeparateWrite(d, codes, tries, schedule, n - 1, e.i, form);
      } else {
        OtherwiseKept(d, codes, tries, schedule, s, e, form);
      }
    }
  }

  lemma OtherwiseKept(d: Decrypt, codes: seq<string>, tries: seq<Attempt>, schedule: seq<Event>, s: State, e: Event,
                      form: string)
    requires Balanced(d, codes, tries, s, form) && UpToDate(tries, schedule, s)
    requires !(e.Write? && e.i < |tries| && e.i in s.seen && e.i !in s.written)
    ensures Balanced(d, codes, tries, Next(d, tries, s, e), form) && UpToDate(tries, schedule, Next(d, tries, s, e))
  {}

  lemma SeparateWrite(d: Decrypt, codes: seq<string>, tries: seq<Attempt>, schedule: seq<Event>, n: nat, i: nat,
                      form: string)
    requires NoRepeats(schedule) && AllSeparate(tries, schedule) && n < |schedule| && schedule[n] == Write(i)
    requires var s := Exec(d, codes, tries, schedule[..n]);
             && i < |tries| && i in s.seen && i !in s.written
             && Balanced(d, codes, tries, s, form) && UpToDate(tries, schedule, s)
    ensures var s' := AfterWrite(d, Exec(d, codes, tries, schedule[..n]), i, tries[i]);
            Balanced(d, codes, tries, s', form) && UpToDate(tries, schedule, s')
  {
    var s := Exec(d, codes, tries, schedule[..n]);
    if CanAccept(tries[i]) {
      RivalWrites(d, codes, tries, schedule, n, i);
      NothingLostYet(d, codes, tries, schedule, n, i, form);
      forall j: nat | j != i && j in s.seen && j !in s.written ensures !IsRival(tries, schedule, j) {
        NoneInBetween(d, codes, tries, schedule, n, i, j);
      }
    }
    WriteKeepsBalance(d, codes, tries, s, i, form);
  }

  // ---------------------------------------------------------------- attempts that are not separate overspend

  /** Nothing has been accepted, and the one code is there for all to see. */
  ghost predicate Untouched(s: State) {
    s.stored == ["A"] && s.accepted == [] && forall k :: k in s.seen ==> s.seen[k] == ["A"]
  }

  lemma StaysUntouched(all: seq<Attempt>, s: State, e: Event)
    requires Untouched(s) && (e.Write? && e.i < |all| ==> all[e.i].code == "B")
    ensures Untouched(Next(PLAIN, all, s, e))
  {
    if e.Write? && e.i < |all| {
      PlainAttempt(all[e.i]);
      PlainMatches(all[e.i]);
    }
  }

  lemma {:induction false} BeforeFirstWrite(all: seq<Attempt>, schedule: seq<Event>, n: nat)
    requires n <= |schedule|
    requires forall q :: 0 <= q < n && schedule[q].Write? && schedule[q].i < |all| ==> all[schedule[q].i].code == "B"
    ensures Untouched(Exec(PLAIN, ["A"], all, schedule[..n]))
  {
    if n > 0 {
      BeforeFirstWrite(all, schedule, n - 1);
      ExecNext(PLAIN, ["A"], all, schedule, n - 1);
      StaysUntouched(all, Exec(PLAIN, ["A"], all, schedule[..n - 1]), schedule[n - 1]);
    }
  }

  /** Between the two writes, the first rival is accepted and the second has the code in hand, or will have. */
  ghost predicate OneIn(tries: seq<Attempt>, s: State, i: nat, j: nat)
    requires i < |tries|
  {
    && s.accepted == [i]
    && (!tries[i].stored ==> s.stored == ["A"])
    && (j in s.seen && j !in s.written ==> s.seen[j] == ["A"])
  }

  lemma FirstWrite(tries: seq<Attempt>, schedule: seq<Event>, i: nat, j: nat, wi: nat, wj: nat)
    requires NoRepeats(schedule) && i != j && wi < wj && IsRival(tries, schedule, i) && j < |tries|
    requires Occurs(schedule, wi, Write(i)) && Occurs(schedule, wj, Write(j))
    ensures var s := Exec(PLAIN, ["A"], Retyped(tries, TextsAt(|tries|, i, j)), schedule[..wi + 1]);
            OneIn(tries, s, i, j)
  {
    var all := Retyped(tries, TextsAt(|tries|, i, j));
    forall q | 0 <= q < wi && schedule[q].Write? && schedule[q].i < |all| ensures all[schedule[q].i].code == "B" {
      assert schedule[q] != schedule[wi] && schedule[q] != schedule[wj];
    }
    BeforeFirstWrite(all, schedule, wi);
    ExecNext(PLAIN, ["A"], all, schedule, wi);
    AtOwnWrite(PLAIN, ["A"], all, schedule, i, wi);
    PlainAttempt(all[i]);
  }

  /** At its write an attempt has read and not yet written. */
  lemma AtOwnWrite(d: Decrypt, codes: seq<string>, tries: seq<Attempt>, schedule: seq<Event>, i: nat, w: nat)
    requires NoRepeats(schedule) && i < |tries| && Finished(schedule, |schedule|, i) && Occurs(schedule, w, Write(i))
    ensures var s := Exec(d, codes, tries, schedule[..w]); i in s.seen && i !in s.written
  {
    var p, q :| p < q < |schedule| && Occurs(schedule, p, Read(i)) && Occurs(schedule, q, Write(i));
    assert q == w;
    SeenIff(d, codes, tries, schedule, w, i);
    WrittenIff(d, codes, tries, schedule, w, i);
  }

  lemma {:induction false} BetweenWrites(tries: seq<Attempt>, schedule: seq<Event>, i: nat, j: nat, wi: nat, wj: nat,
                                         n: nat)
    requires NoRepeats(schedule) && i != j && wi < n <= wj
    requires IsRival(tries, schedule, i) && IsRival(tries, schedule, j) && !RecordsBefore(tries, schedule, i, j)
    requires Occurs(schedule, wi, Write(i)) && Occurs(schedule, wj, Write(j))
    ensures var s := Exec(PLAIN, ["A"], Retyped(tries, TextsAt(|tries|, i, j)), schedule[..n]);
            OneIn(tries, s, i, j)
    decreases n
  {
    if n == wi + 1 {
      FirstWrite(tries, schedule, i, j, wi, wj);
    } else {
      BetweenWrites(tries, schedule, i, j, wi, wj, n - 1);
      NotReadAfterRecord(tries, schedule, i, j, wi, n - 1);
      BetweenStep(tries, Retyped(tries, TextsAt(|tries|, i, j)), schedule, i, j, n - 1);
    }
  }

  lemma NotReadAfterRecord(tries: seq<Attempt>, schedule: seq<Event>, i: nat, j: nat, wi: nat, n: nat)
    requires i < |tries| && wi < n < |schedule| && Occurs(schedule, wi, Write(i))
    requires !RecordsBefore(tries, schedule, i, j)
    ensures schedule[n] == Read(j) ==> !tries[i].stored
  {
    assert schedule[n] == Read(j) ==> Occurs(schedule, n, Read(j));
  }

  lemma BetweenStep(tries: seq<Attempt>, all: seq<Attempt>, schedule: seq<Event>, i: nat, j: nat, n: nat)
    requires i < |tries| == |all| && n < |schedule|
    requires OneIn(tries, Exec(PLAIN, ["A"], all, schedule[..n]), i, j)
    requires schedule[n] == Read(j) ==> !tries[i].stored
    requires schedule[n].Write? && schedule[n].i < |all| ==> schedule[n].i != j && all[schedule[n].i].code == "B"
    ensures OneIn(tries, Exec(PLAIN, ["A"], all, schedule[..n + 1]), i, j)
  {
    var e := schedule[n];
    ExecNext(PLAIN, ["A"], all, schedule, n);
    if e.Write? && e.i < |all| {
      OtherWrite(all, schedule, n, e.i);
    }
    StaysOneIn(tries, all, Exec(PLAIN, ["A"], all, schedule[..n]), e, i, j);
  }

  lemma StaysOneIn(tries: seq<Attempt>, all: seq<Attempt>, s: State, e: Event, i: nat, j: nat)
    requires i < |tries| == |all| && OneIn(tries, s, i, j)
    requires e == Read(j) ==> !tries[i].stored
    requires e.Write? && e.i < |tries| ==> e.i != j && (e.i in s.seen ==> !Hits(PLAIN, s.seen[e.i], all[e.i]))
    ensures OneIn(tries, Next(PLAIN, all, s, e), i, j)
  {}

  /** An attempt with the other text finds nothing, whichever of the two lists it has seen. */
  lemma OtherWrite(all: seq<Attempt>, schedule: seq<Event>, n: nat, k: nat)
    requires k < |all| && all[k].code == "B" && n <= |schedule|
    ensures var s := Exec(PLAIN, ["A"], all, schedule[..n]);
            k in s.seen ==> !Hits(PLAIN, s.seen[k], all[k])
  {
    OnlyTheCode(all, schedule, n);
    var s := Exec(PLAIN, ["A"], all, schedule[..n]);
    PlainMatches(all[k]);
  }

  lemma {:induction false} OnlyTheCode(all: seq<Attempt>, schedule: seq<Event>, n: nat)
    requires n <= |schedule|
    ensures var s := Exec(PLAIN, ["A"], all, schedule[..n]);
            (s.stored == ["A"] || s.stored == []) && forall k :: k in s.seen ==> s.seen[k] == ["A"] || s.seen[k] == []
  {
    if n > 0 {
      OnlyTheCode(all, schedule, n - 1);
      ExecNext(PLAIN, ["A"], all, schedule, n - 1);
    }
  }

  lemma {:induction false} AcceptedStays(d: Decrypt, codes: seq<string>, tries: seq<Attempt>, schedule: seq<Event>,
                                         n: nat, form: string)
    requires n <= |schedule|
    ensures CountAccepted(tries, Exec(d, codes, tries, schedule[..n]).accepted, form)
         <= CountAccepted(tries, Exec(d, codes, tries, schedule).accepted, form)
    decreases |schedule| - n
  {
    if n == |schedule| {
      assert schedule[..n] == schedule;
    } else {
      AcceptedStays(d, codes, tries, schedule, n + 1, form);
      ExecNext(d, codes, tries, schedule, n);
      var s, e := Exec(d, codes, tries, schedule[..n]), schedule[n];
      if e.i < |tries| {
        OneMoreAccepted(tries, s.accepted, e.i, form);
      }
    }
  }

  /** Two rivals neither of which records before the other reads: one issued code is accepted by both. */
  lemma BothAccepted(tries: seq<Attempt>, schedule: seq<Event>, i: nat, j: nat, wi: nat, wj: nat)
    requires NoRepeats(schedule) && i != j && wi < wj
    requires IsRival(tries, schedule, i) && IsRival(tries, schedule, j) && !RecordsBefore(tries, schedule, i, j)
    requires Occurs(schedule, wi, Write(i)) && Occurs(schedule, wj, Write(j))
    ensures var all := Retyped(tries, TextsAt(|tries|, i, j));
            CountAccepted(all, Exec(PLAIN, ["A"], all, schedule).accepted, "A") >= 2
  {
    var all := Retyped(tries, TextsAt(|tries|, i, j));
    BetweenWrites(tries, schedule, i, j, wi, wj, wj);
    SecondAccepted(tries, all, schedule, i, j, wj);
  }

  lemma SecondAccepted(tries: seq<Attempt>, all: seq<Attempt>, schedule: seq<Event>, i: nat, j: nat, wj: nat)
    requires NoRepeats(schedule) && Occurs(schedule, wj, Write(j)) && Finished(schedule, |schedule|, j)
    requires i < |tries| == |all| && j < |all| && OneIn(tries, Exec(PLAIN, ["A"], all, schedule[..wj]), i, j)
    requires all[i].code == "A" && all[j].code == "A" && CanAccept(all[j])
    ensures CountAccepted(all, Exec(PLAIN, ["A"], all, schedule).accepted, "A") >= 2
  {
    AtOwnWrite(PLAIN, ["A"], all, schedule, j, wj);
    ExecNext(PLAIN, ["A"], all, schedule, wj);
    SecondWrite(tries, all, Exec(PLAIN, ["A"], all, schedule[..wj]), i, j);
    AcceptedStays(PLAIN, ["A"], all, schedule, wj + 1, "A");
  }

  lemma SecondWrite(tries: seq<Attempt>, all: seq<Attempt>, s: State, i: nat, j: nat)
    requires i < |tries| == |all| && j < |all| && OneIn(tries, s, i, j) && j in s.seen && j !in s.written
    requires all[i].code == "A" && all[j].code == "A" && CanAccept(all[j])
    ensures CountAccepted(all, Next(PLAIN, all, s, Write(j)).accepted, "A") == 2
  {
    PlainAttempt(all[j]);
    assert Next(PLAIN, all, s, Write(j)).accepted == [i] + [j];
    TwoAccepted(all, i, j);
  }

  lemma TwoAccepted(all: seq<Attempt>, i: nat, j: nat)
    requires i < |all| && j < |all| && all[i].code == "A" && all[j].code == "A"
    ensures CountAccepted(all, [i] + [j], "A") == 2
  {
    PlainForms();
    assert [i][..0] == [] && CountAccepted(all, [i], "A") == 1;
    OneMoreAccepted(all, [i], j, "A");
  }

  // ---------------------------------------------------------------- the exact condition

  /** In this schedule of reads and writes, whatever is issued and typed, no code is accepted more often than issued. */
  ghost predicate NeverOverspends(tries: seq<Attempt>, schedule: seq<Event>) {
    forall d: Decrypt, codes: seq<string>, texts: seq<string>, form: string :: |texts| == |tries| ==>
      CountAccepted(Retyped(tries, texts), Exec(d, codes, Retyped(tries, texts), schedule).accepted, form)
      <= CountForm(d, codes, form)
  }

  lemma RetypedSeparate(tries: seq<Attempt>, texts: seq<string>, schedule: seq<Event>)
    requires |texts| == |tries| && AllSeparate(tries, schedule)
    ensures AllSeparate(Retyped(tries, texts), schedule)
  {
    var all := Retyped(tries, texts);
    forall i: nat, j: nat | i != j && IsRival(all, schedule, i) && IsRival(all, schedule, j)
      ensures RecordsBefore(all, schedule, i, j) || RecordsBefore(all, schedule, j, i)
    {
      assert IsRival(tries, schedule, i) && IsRival(tries, schedule, j);
    }
  }

  /**
  For every schedule of reads and writes: codes are never overspent, whatever is issued and typed,
  exactly when of any two attempts that can be accepted one records its acceptance before the other reads.
  */
  lemma NeverOverspendsIff(tries: seq<Attempt>, schedule: seq<Event>)
    requires NoRepeats(schedule)
    ensures NeverOverspends(tries, schedule) <==> AllSeparate(tries, schedule)
  {
    if AllSeparate(tries, schedule) {
      forall d: Decrypt, codes: seq<string>, texts: seq<string>, form: string | |texts| == |tries|
        ensures CountAccepted(Retyped(tries, texts), Exec(d, codes, Retyped(tries, texts), schedule).accepted, form)
             <= CountForm(d, codes, form)
      {
        RetypedSeparate(tries, texts, schedule);
        SeparateRun(d, codes, Retyped(tries, texts), schedule, |schedule|, form);
        assert schedule[..|schedule|] == schedule;
      }
    } else {
      var i: nat, j: nat :| i != j && IsRival(tries, schedule, i) && IsRival(tries, schedule, j)
        && !RecordsBefore(tries, schedule, i, j) && !RecordsBefore(tries, schedule, j, i);
      NotSeparateOverspends(tries, schedule, i, j);
    }
  }

  lemma NotSeparateOverspends(tries: seq<Attempt>, schedule: seq<Event>, i: nat, j: nat)
    requires NoRepeats(schedule) && i != j && IsRival(tries, schedule, i) && IsRival(tries, schedule, j)
    requires !RecordsBefore(tries, schedule, i, j) && !RecordsBefore(tries, schedule, j, i)
    ensures !NeverOverspends(tries, schedule)
  {
    var pi, wi :| pi < wi < |schedule| && Occurs(schedule, pi, Read(i)) && Occurs(schedule, wi, Write(i));
    var pj, wj :| pj < wj < |schedule| && Occurs(schedule, pj, Read(j)) && Occurs(schedule, wj, Write(j));
    assert wi != wj;
    PlainCount();
    if wi < wj {
      BothAccepted(tries, schedule, i, j, wi, wj);
    } else {
      BothAccepted(tries, schedule, j, i, wj, wi);
    }
  }
}
