/**
Backup codes of an authenticator: each accepted code is removed from the stored list. Two handlers
do this, with different comparisons and different reactions to a failed write. Decryption is a
parameter.
*/
module BackupCodes {
  import opened Options
  import opened Text
  import opened UserCodes

  type Decrypt = string -> Option<string>

  /** Case and hyphens do not count. */
  function Normal(code: string): string {
    ToUpper(StripHyphens(code))
  }

  lemma ToUpperConcat(s: string, t: string)
    ensures ToUpper(s + t) == ToUpper(s) + ToUpper(t)
  {}

  /** A hyphen anywhere makes no difference, nor does letter case; upper-case text without hyphens is its own form. */
  lemma NormalForm(s: string, t: string)
    ensures Normal(s + "-" + t) == Normal(s + t)
    ensures Normal(ToUpper(s)) == Normal(s)
    ensures '-' !in s && ToUpper(s) == s ==> Normal(s) == s
  {
    StripConcat(s + "-", t);
    StripConcat(s, "-");
    StripConcat(s, t);
    assert StripHyphens("-") == "";
    StripUpper(s);
    if '-' !in s {
      StripNothing(s);
    }
  }

  lemma {:induction false} StripUpper(s: string)
    ensures ToUpper(StripHyphens(ToUpper(s))) == ToUpper(StripHyphens(s))
  {
    if s != "" {
      var init, c := s[..|s| - 1], s[|s| - 1];
      StripUpper(init);
      assert ToUpper(s)[..|s| - 1] == ToUpper(init);
      assert UpperChar(c) == '-' <==> c == '-';
      ToUpperConcat(StripHyphens(ToUpper(init)), [UpperChar(c)]);
      ToUpperConcat(StripHyphens(init), [c]);
      assert ToUpper([UpperChar(c)]) == ToUpper([c]);
    }
  }

  /** A try at a backup code: which handler, what was typed, and whether the write to the store succeeds. */
  datatype Attempt = Helper(code: string, stored: bool) | Handler(code: string, stored: bool)

  predicate Matches(d: Decrypt, encrypted: string, a: Attempt) {
    match d(encrypted)
    case None => false
    case Some(plain) => if a.Helper? then Normal(a.code) == Normal(plain) else plain == a.code
  }

  /** The position of the first stored code that matches, or the length when none does. */
  function FirstMatch(d: Decrypt, codes: seq<string>, a: Attempt): (i: nat)
    ensures i <= |codes|
    ensures i < |codes| ==> Matches(d, codes[i], a)
    ensures forall k :: 0 <= k < i ==> !Matches(d, codes[k], a)
  {
    if codes == [] then 0
    else if Matches(d, codes[0], a) then 0
    else 1 + FirstMatch(d, codes[1..], a)
  }

  function RemoveAt(codes: seq<string>, i: nat): seq<string>
    requires i < |codes|
  {
    codes[..i] + codes[i + 1..]
  }

  /** The helper reports a failed write as a failure; the handler accepts the code all the same. */
  predicate Accepts(d: Decrypt, codes: seq<string>, a: Attempt) {
    FirstMatch(d, codes, a) < |codes| && (a.Helper? ==> a.stored)
  }

  function After(d: Decrypt, codes: seq<string>, a: Attempt): seq<string> {
    if FirstMatch(d, codes, a) < |codes| && a.stored then RemoveAt(codes, FirstMatch(d, codes, a)) else codes
  }

  /** The helper's inner loop: all codes but one, in their order. */
  method CopyWithout(codes: seq<string>, i: nat) returns (kept: seq<string>)
    requires i < |codes|
    ensures kept == RemoveAt(codes, i)
  {
    kept := [];
    for j := 0 to |codes|
      invariant kept == if j <= i then codes[..j] else codes[..i] + codes[i + 1..j]
    {
      if j != i {
        kept := kept + [codes[j]];
      }
    }
  }

  class MfaMethod {
    var codes: seq<string>

    constructor (issued: seq<string>)
      ensures codes == issued
    {
      codes := issued;
    }

    /** The helper: copies all codes but the used one, in a loop. */
    method VerifyBackupCode(d: Decrypt, code: string, stored: bool) returns (accepted: bool)
      modifies this
      ensures accepted == Accepts(d, old(codes), Helper(code, stored))
      ensures codes == After(d, old(codes), Helper(code, stored))
      ensures accepted <==> stored && exists i :: 0 <= i < |old(codes)| && IsForm(d, old(codes)[i], Normal(code))
      ensures !accepted ==> codes == old(codes)
      ensures accepted ==> exists i :: 0 <= i < |old(codes)| && IsForm(d, old(codes)[i], Normal(code))
                                       && codes == old(codes)[..i] + old(codes)[i + 1..]
    {
      ghost var a := Helper(code, stored);
      for i := 0 to |codes|
        invariant codes == old(codes)
        invariant forall k :: 0 <= k < i ==> !Matches(d, codes[k], a)
      {
        var plain := d(codes[i]);
        if plain.Some? && Normal(code) == Normal(plain.value) {
          FirstMatchAt(d, codes, a, i);
          var kept := CopyWithout(codes, i);
          if stored {
            codes := kept;
          }
          return stored;
        }
      }
      return false;
    }

    /** The handler: compares exactly and slices the used code out. */
    method VerifyTotpBackupCode(d: Decrypt, code: string, stored: bool) returns (accepted: bool)
      modifies this
      ensures accepted == Accepts(d, old(codes), Handler(code, stored))
      ensures codes == After(d, old(codes), Handler(code, stored))
      ensures accepted <==> exists i :: 0 <= i < |old(codes)| && d(old(codes)[i]) == Some(code)
      ensures !accepted || !stored ==> codes == old(codes)
      ensures accepted && stored ==> exists i :: 0 <= i < |old(codes)| && d(old(codes)[i]) == Some(code)
                                                 && codes == old(codes)[..i] + old(codes)[i + 1..]
    {
      ghost var a := Handler(code, stored);
      for i := 0 to |codes|
        invariant codes == old(codes)
        invariant forall k :: 0 <= k < i ==> !Matches(d, codes[k], a)
      {
        var plain := d(codes[i]);
        if plain.Some? && plain.value == code {
          FirstMatchAt(d, codes, a, i);
          if stored {
            codes := codes[..i] + codes[i + 1..];
          }
          return true;
        }
      }
      return false;
    }
  }

  lemma FirstMatchAt(d: Decrypt, codes: seq<string>, a: Attempt, i: nat)
    requires i < |codes| && Matches(d, codes[i], a)
    requires forall k :: 0 <= k < i ==> !Matches(d, codes[k], a)
    ensures FirstMatch(d, codes, a) == i
  {}

  // ---------------------------------------------------------------- conservation over runs

  /** The stored codes after a run of attempts. */
  function Run(d: Decrypt, codes: seq<string>, tries: seq<Attempt>): seq<string> {
    if tries == [] then codes else After(d, Run(d, codes, tries[..|tries| - 1]), tries[|tries| - 1])
  }

  predicate IsForm(d: Decrypt, encrypted: string, form: string) {
    d(encrypted).Some? && Normal(d(encrypted).value) == form
  }

  /** How many stored codes have this normal form. */
  function CountForm(d: Decrypt, codes: seq<string>, form: string): nat {
    if codes == [] then 0
    else CountForm(d, codes[..|codes| - 1], form) + (if IsForm(d, codes[|codes| - 1], form) then 1 else 0)
  }

  /** How many attempts with this normal form were accepted. */
  function AcceptedForm(d: Decrypt, codes: seq<string>, tries: seq<Attempt>, form: string): nat {
    if tries == [] then 0
    else
      var n := |tries| - 1;
      var earlier := AcceptedForm(d, codes, tries[..n], form);
      if Normal(tries[n].code) == form && Accepts(d, Run(d, codes, tries[..n]), tries[n]) then earlier + 1 else earlier
  }

  /** How many of those the handler let through although the write had failed. */
  function UnrecordedForm(d: Decrypt, codes: seq<string>, tries: seq<Attempt>, form: string): nat {
    if tries == [] then 0
    else
      var n := |tries| - 1;
      var earlier := UnrecordedForm(d, codes, tries[..n], form);
      var lost := Accepts(d, Run(d, codes, tries[..n]), tries[n]) && !tries[n].stored;
      if Normal(tries[n].code) == form && lost then earlier + 1 else earlier
  }

  lemma {:induction false} CountConcat(d: Decrypt, s: seq<string>, t: seq<string>, form: string)
    ensures CountForm(d, s + t, form) == CountForm(d, s, form) + CountForm(d, t, form)
  {
    if t == [] {
      assert s + t == s;
    } else {
      var init := t[..|t| - 1];
      assert (s + t)[..|s + t| - 1] == s + init;
      CountConcat(d, s, init, form);
    }
  }

  lemma CountRemoved(d: Decrypt, codes: seq<string>, i: nat, form: string)
    requires i < |codes|
    ensures CountForm(d, RemoveAt(codes, i), form) + (if IsForm(d, codes[i], form) then 1 else 0)
         == CountForm(d, codes, form)
  {
    CountConcat(d, codes[..i], codes[i + 1..], form);
    CountConcat(d, codes[..i], [codes[i]], form);
    CountConcat(d, codes[..i] + [codes[i]], codes[i + 1..], form);
    assert codes[..i] + [codes[i]] + codes[i + 1..] == codes;
    assert CountForm(d, [codes[i]], form) == if IsForm(d, codes[i], form) then 1 else 0;
  }

  /**
  In every run, for every normal form: accepted attempts and remaining codes together are the codes
  issued, plus what the handler accepted while its write failed.
  */
  lemma {:induction false} Conservation(d: Decrypt, codes: seq<string>, tries: seq<Attempt>, form: string)
    ensures AcceptedForm(d, codes, tries, form) + CountForm(d, Run(d, codes, tries), form)
         == CountForm(d, codes, form) + UnrecordedForm(d, codes, tries, form)
  {
    if tries != [] {
      var n := |tries| - 1;
      Conservation(d, codes, tries[..n], form);
      var stored, a := Run(d, codes, tries[..n]), tries[n];
      var i := FirstMatch(d, stored, a);
      if i < |stored| {
        assert IsForm(d, stored[i], Normal(a.code));
        CountRemoved(d, stored, i, form);
      }
    }
  }

  // ---------------------------------------------------------------- when acceptances stay within the codes issued

  /** The handler would let a match through without recording it. */
  predicate Loses(a: Attempt) {
    a.Handler? && !a.stored
  }

  /** A match would be accepted. */
  predicate CanAccept(a: Attempt) {
    a.Handler? || a.stored
  }

  /** After an attempt whose acceptance would go unrecorded, no attempt can be accepted. */
  ghost predicate NothingAfterLoss(tries: seq<Attempt>) {
    forall i, j :: 0 <= i < j < |tries| ==> !(Loses(tries[i]) && CanAccept(tries[j]))
  }

  lemma {:induction false} UnrecordedMeansLoss(d: Decrypt, codes: seq<string>, tries: seq<Attempt>, form: string)
    requires UnrecordedForm(d, codes, tries, form) > 0
    ensures exists i :: 0 <= i < |tries| && Loses(tries[i])
  {
    var n := |tries| - 1;
    if UnrecordedForm(d, codes, tries[..n], form) > 0 {
      UnrecordedMeansLoss(d, codes, tries[..n], form);
      var i :| 0 <= i < n && Loses(tries[..n][i]);
      assert Loses(tries[i]);
    } else {
      assert Loses(tries[n]);
    }
  }

  lemma {:induction false} FoundIsCounted(d: Decrypt, codes: seq<string>, i: nat, form: string)
    requires i < |codes| && IsForm(d, codes[i], form)
    ensures CountForm(d, codes, form) >= 1
  {
    if i < |codes| - 1 {
      FoundIsCounted(d, codes[..|codes| - 1], i, form);
    }
  }

  /** What was let through unrecorded is still in the list. */
  lemma {:induction false} UnrecordedIsLeft(d: Decrypt, codes: seq<string>, tries: seq<Attempt>, form: string)
    requires NothingAfterLoss(tries)
    ensures UnrecordedForm(d, codes, tries, form) <= CountForm(d, Run(d, codes, tries), form)
  {
    if tries != [] {
      var n := |tries| - 1;
      var before, a := Run(d, codes, tries[..n]), tries[n];
      UnrecordedIsLeft(d, codes, tries[..n], form);
      if UnrecordedForm(d, codes, tries[..n], form) > 0 {
        UnrecordedMeansLoss(d, codes, tries[..n], form);
        var i :| 0 <= i < n && Loses(tries[..n][i]);
        assert Loses(tries[i]) && !CanAccept(a);
      } else if FirstMatch(d, before, a) < |before| && !a.stored && Normal(a.code) == form {
        FoundIsCounted(d, before, FirstMatch(d, before, a), form);
      }
    }
  }

  /** If nothing can be accepted after a loss, a code is accepted at most as often as it was issued. */
  lemma AcceptedAtMostIssued(d: Decrypt, codes: seq<string>, tries: seq<Attempt>, form: string)
    requires NothingAfterLoss(tries)
    ensures AcceptedForm(d, codes, tries, form) <= CountForm(d, codes, form)
  {
    Conservation(d, codes, tries, form);
    UnrecordedIsLeft(d, codes, tries, form);
  }

  /** No two stored codes have the same normal form. */
  ghost predicate DistinctForms(d: Decrypt, codes: seq<string>) {
    forall i, j, form :: 0 <= i < j < |codes| ==> !(IsForm(d, codes[i], form) && IsForm(d, codes[j], form))
  }

  lemma {:induction false} NoneOfForm(d: Decrypt, codes: seq<string>, form: string)
    requires forall i :: 0 <= i < |codes| ==> !IsForm(d, codes[i], form)
    ensures CountForm(d, codes, form) == 0
  {
    if codes != [] {
      NoneOfForm(d, codes[..|codes| - 1], form);
    }
  }

  lemma {:induction false} AtMostOneOfForm(d: Decrypt, codes: seq<string>, form: string)
    requires DistinctForms(d, codes)
    ensures CountForm(d, codes, form) <= 1
  {
    if codes != [] {
      var n := |codes| - 1;
      AtMostOneOfForm(d, codes[..n], form);
      if IsForm(d, codes[n], form) {
        NoneOfForm(d, codes[..n], form);
      }
    }
  }

  /** So codes issued with distinct normal forms are each good for one acceptance, in whatever spelling. */
  lemma AcceptedAtMostOnce(d: Decrypt, codes: seq<string>, tries: seq<Attempt>, form: string)
    requires NothingAfterLoss(tries) && DistinctForms(d, codes)
    ensures AcceptedForm(d, codes, tries, form) <= 1
  {
    AcceptedAtMostIssued(d, codes, tries, form);
    AtMostOneOfForm(d, codes, form);
  }

  /** The same attempts with other texts typed. */
  function Retyped(tries: seq<Attempt>, texts: seq<string>): (r: seq<Attempt>)
    requires |texts| == |tries|
    ensures |r| == |tries|
    ensures forall i :: 0 <= i < |r| ==> r[i] == tries[i].(code := texts[i])
  {
    seq(|tries|, i requires 0 <= i < |tries| => tries[i].(code := texts[i]))
  }

  /** Whatever was issued and whatever is typed, no code is accepted more often than it was issued. */
  ghost predicate NeverOverspends(tries: seq<Attempt>) {
    forall d: Decrypt, codes: seq<string>, texts: seq<string>, form: string :: |texts| == |tries| ==>
      AcceptedForm(d, codes, Retyped(tries, texts), form) <= CountForm(d, codes, form)
  }

  /** Codes that are stored as they are typed. */
  const PLAIN: Decrypt := (s: string) => Some(s)

  /** One text at two attempts, and another everywhere else. */
  function TextsAt(n: nat, i: nat, j: nat): (texts: seq<string>)
    ensures |texts| == n
    ensures forall k :: 0 <= k < n ==> texts[k] == if k == i || k == j then "A" else "B"
  {
    seq(n, k requires 0 <= k < n => if k == i || k == j then "A" else "B")
  }

  lemma PlainForms()
    ensures Normal("A") == "A" && Normal("B") == "B"
  {
    StripNothing("A");
    StripNothing("B");
    assert ToUpper("A") == "A" && ToUpper("B") == "B";
  }

  lemma PlainMatches(a: Attempt)
    requires a.code == "A" || a.code == "B"
    ensures Matches(PLAIN, "A", a) <==> a.code == "A"
    ensures FirstMatch(PLAIN, ["A"], a) == if a.code == "A" then 0 else 1
  {
    PlainForms();
    assert PLAIN("A") == Some("A") && "A" != "B";
    assert Matches(PLAIN, "A", a) <==> a.code == "A";
  }

  /** What an attempt does to the one plain code. */
  lemma PlainAttempt(a: Attempt)
    requires a.code == "A" || a.code == "B"
    ensures Accepts(PLAIN, ["A"], a) <==> a.code == "A" && CanAccept(a)
    ensures After(PLAIN, ["A"], a) == if a.code == "A" && a.stored then [] else ["A"]
    ensures Normal(a.code) == a.code
  {
    PlainForms();
    PlainMatches(a);
  }

  lemma AcceptedLast(d: Decrypt, codes: seq<string>, tries: seq<Attempt>, n: nat, form: string)
    requires n < |tries|
    ensures Run(d, codes, tries[..n + 1]) == After(d, Run(d, codes, tries[..n]), tries[n])
    ensures AcceptedForm(d, codes, tries[..n + 1], form)
         == AcceptedForm(d, codes, tries[..n], form)
          + (if Normal(tries[n].code) == form && Accepts(d, Run(d, codes, tries[..n]), tries[n]) then 1 else 0)
  {
    assert tries[..n + 1][..n] == tries[..n];
  }

  /** Up to the second of the two attempts the one code is still there, and accepted once after the first. */
  lemma {:induction false} StillThere(all: seq<Attempt>, i: nat, j: nat, n: nat)
    requires i < j < |all| && n <= j && Loses(all[i])
    requires forall k :: 0 <= k < |all| ==> all[k].code == if k == i || k == j then "A" else "B"
    ensures Run(PLAIN, ["A"], all[..n]) == ["A"]
    ensures AcceptedForm(PLAIN, ["A"], all[..n], "A") == if n > i then 1 else 0
  {
    if n > 0 {
      StillThere(all, i, j, n - 1);
      OneAttemptMore(all, n - 1, n - 1 == i);
    }
  }

  lemma OneAttemptMore(all: seq<Attempt>, n: nat, hit: bool)
    requires n < |all| && Run(PLAIN, ["A"], all[..n]) == ["A"]
    requires all[n].code == (if hit then "A" else "B") && (hit ==> Loses(all[n]))
    ensures Run(PLAIN, ["A"], all[..n + 1]) == ["A"]
    ensures var more := if hit then 1 else 0;
            AcceptedForm(PLAIN, ["A"], all[..n + 1], "A") == AcceptedForm(PLAIN, ["A"], all[..n], "A") + more
  {
    PlainAttempt(all[n]);
    AcceptedLast(PLAIN, ["A"], all, n, "A");
  }

  lemma {:induction false} AcceptedGrows(d: Decrypt, codes: seq<string>, tries: seq<Attempt>, n: nat, form: string)
    requires n <= |tries|
    ensures AcceptedForm(d, codes, tries[..n], form) <= AcceptedForm(d, codes, tries, form)
    decreases |tries|
  {
    if n == |tries| {
      assert tries[..n] == tries;
    } else {
      var init := tries[..|tries| - 1];
      AcceptedGrows(d, codes, init, n, form);
      assert init[..n] == tries[..n];
    }
  }

  /** A failed write of the handler and one later attempt that can be accepted: a single code is accepted twice. */
  lemma LossAcceptsTwice(tries: seq<Attempt>, i: nat, j: nat)
    requires i < j < |tries| && Loses(tries[i]) && CanAccept(tries[j])
    ensures var all := Retyped(tries, TextsAt(|tries|, i, j));
            AcceptedForm(PLAIN, ["A"], all, "A") >= 2 && CountForm(PLAIN, ["A"], "A") == 1
  {
    var all := Retyped(tries, TextsAt(|tries|, i, j));
    StillThere(all, i, j, j);
    PlainAttempt(all[j]);
    AcceptedLast(PLAIN, ["A"], all, j, "A");
    AcceptedGrows(PLAIN, ["A"], all, j + 1, "A");
    PlainCount();
  }

  lemma PlainCount()
    ensures CountForm(PLAIN, ["A"], "A") == 1
  {
    PlainForms();
    assert IsForm(PLAIN, "A", "A") && CountForm(PLAIN, [], "A") == 0;
  }

  /** Over all texts and codes, acceptances stay within the codes issued exactly when nothing can follow a loss. */
  lemma NeverOverspendsIff(tries: seq<Attempt>)
    ensures NeverOverspends(tries) <==> NothingAfterLoss(tries)
  {
    if NothingAfterLoss(tries) {
      forall d: Decrypt, codes: seq<string>, texts: seq<string>, form: string | |texts| == |tries|
        ensures AcceptedForm(d, codes, Retyped(tries, texts), form) <= CountForm(d, codes, form)
      {
        AcceptedAtMostIssued(d, codes, Retyped(tries, texts), form);
      }
    } else {
      var i, j :| 0 <= i < j < |tries| && Loses(tries[i]) && CanAccept(tries[j]);
      LossAcceptsTwice(tries, i, j);
    }
  }

  // ---------------------------------------------------------------- order is kept

  /** What remains after any run is the issued list with some codes missing and the order unchanged. */
  lemma {:induction false} OrderIsKept(d: Decrypt, codes: seq<string>, tries: seq<Attempt>) returns (kept: seq<nat>)
    ensures Picks(Run(d, codes, tries), codes, kept)
  {
    if tries == [] {
      kept := seq(|codes|, i requires 0 <= i < |codes| => i);
    } else {
      var n := |tries| - 1;
      kept := OrderIsKept(d, codes, tries[..n]);
      var stored, a := Run(d, codes, tries[..n]), tries[n];
      var i := FirstMatch(d, stored, a);
      if i < |stored| && a.stored {
        PicksWithout(stored, codes, kept, i);
        kept := kept[..i] + kept[i + 1..];
      }
    }
  }

  lemma PicksWithout(part: seq<string>, whole: seq<string>, kept: seq<nat>, i: nat)
    requires Picks(part, whole, kept) && i < |part|
    ensures Picks(RemoveAt(part, i), whole, kept[..i] + kept[i + 1..])
  {}
}
